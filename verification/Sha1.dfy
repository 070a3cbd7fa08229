/** The streaming SHA-1 object of the WebSocket handshake. */
module Sha1 {
  import opened Serial
  import opened Sha1Spec

  // ----- the round functions and the byte order as they are computed

  /** `((w&(x^y))^y)` */
  function FastCh(x: Word, y: Word, z: Word): Word {
    (x & (y ^ z)) ^ z
  }

  /** `(((w|x)&y)|(w&x))` */
  function FastMaj(x: Word, y: Word, z: Word): Word {
    ((x | y) & z) | (x & y)
  }

  function FastF(t: nat, x: Word, y: Word, z: Word): Word {
    if t < 20 then FastCh(x, y, z) else if t < 40 then x ^ y ^ z else if t < 60 then FastMaj(x, y, z) else x ^ y ^ z
  }

  lemma ChIdentity(x: Word, y: Word, z: Word)
    ensures (x & (y ^ z)) ^ z == (x & y) ^ (!x & z)
  {}

  lemma FastChAgrees(x: Word, y: Word, z: Word)
    ensures FastCh(x, y, z) == Ch(x, y, z)
  {
    calc {
      FastCh(x, y, z);
      (x & (y ^ z)) ^ z;
      { ChIdentity(x, y, z); }
      (x & y) ^ (!x & z);
      Ch(x, y, z);
    }
  }

  lemma MajIdentity(x: Word, y: Word, z: Word)
    ensures ((x | y) & z) | (x & y) == (x & y) ^ (x & z) ^ (y & z)
  {}

  lemma FastMajAgrees(x: Word, y: Word, z: Word)
    ensures FastMaj(x, y, z) == Maj(x, y, z)
  {
    calc {
      FastMaj(x, y, z);
      ((x | y) & z) | (x & y);
      { MajIdentity(x, y, z); }
      (x & y) ^ (x & z) ^ (y & z);
      Maj(x, y, z);
    }
  }

  lemma FastFAgrees(t: nat, x: Word, y: Word, z: Word)
    ensures FastF(t, x, y, z) == F(t, x, y, z)
  {
    hide FastCh, FastMaj, Ch, Maj;
    FastChAgrees(x, y, z);
    FastMajAgrees(x, y, z);
  }

  /** A word of the workspace as `memcpy` leaves it on a little-endian machine. */
  function LittleEndian(b0: Byte, b1: Byte, b2: Byte, b3: Byte): Word {
    Join(b3 as Word, b2 as Word, b1 as Word, b0 as Word)
  }

  function Rotl8(x: Word): Word { (x << 8) | (x >> 24) }
  function Rotl24(x: Word): Word { (x << 24) | (x >> 8) }

  /** `SHABLK0` */
  function SwapBytes(x: Word): Word {
    (Rotl24(x) & 0xFF00FF00) | (Rotl8(x) & 0x00FF00FF)
  }

  lemma SwapWords(a: Word, b: Word, c: Word, d: Word)
    requires a <= 0xFF && b <= 0xFF && c <= 0xFF && d <= 0xFF
    ensures SwapBytes(Join(d, c, b, a)) == Join(a, b, c, d)
  {}

  lemma OctetSmall(b: Byte)
    ensures (b as Word) <= 0xFF
  {}

  lemma SwapIsBigEndian(b0: Byte, b1: Byte, b2: Byte, b3: Byte)
    ensures SwapBytes(LittleEndian(b0, b1, b2, b3)) == BigEndian(b0, b1, b2, b3)
  {
    hide SwapBytes, Join;
    OctetSmall(b0);
    OctetSmall(b1);
    OctetSmall(b2);
    OctetSmall(b3);
    SwapWords(b0 as Word, b1 as Word, b2 as Word, b3 as Word);
  }

  // ----- the rotating registers

  /** The position, in round `t`, of the register that plays role `j` of
      `a`, `b`, `c`, `d`, `e`: the roles move, the registers stay. */
  function Role(j: nat, t: nat): nat
    requires j < 5
    ensures Role(j, t) < 5
  {
    if j >= t % 5 then j - t % 5 else j - t % 5 + 5
  }

  ghost predicate Registers(r: seq<Word>, v: Hash, t: nat) {
    && |r| == 5
    && r[Role(0, t)] == v.a && r[Role(1, t)] == v.b && r[Role(2, t)] == v.c
    && r[Role(3, t)] == v.d && r[Role(4, t)] == v.e
  }

  /** The two orders in which the five words of a round are added. */
  function MacroSum(e: Word, f: Word, w: Word, k: Word, r: Word): Word {
    e + (f + w + k + r)
  }

  function RoundSum(e: Word, f: Word, w: Word, k: Word, r: Word): Word {
    r + f + e + k + w
  }

  lemma SumOrder(e: Word, f: Word, w: Word, k: Word, r: Word)
    ensures MacroSum(e, f, w, k, r) == RoundSum(e, f, w, k, r)
  {}

  /** What a macro adds up for the register `e`. */
  function FastT(t: nat, a: Word, b: Word, c: Word, d: Word, e: Word, w: Word): Word {
    MacroSum(e, FastF(t, b, c, d), w, K(t), Rotl5(a))
  }

  lemma TIsSum(t: nat, a: Word, b: Word, c: Word, d: Word, e: Word, w: Word)
    ensures T(t, a, b, c, d, e, w) == RoundSum(e, F(t, b, c, d), w, K(t), Rotl5(a))
  {
    hide F, K, Rotl5;
  }

  lemma FastTAgrees(t: nat, a: Word, b: Word, c: Word, d: Word, e: Word, w: Word)
    ensures FastT(t, a, b, c, d, e, w) == T(t, a, b, c, d, e, w)
  {
    hide FastF, F, K, Rotl5, T, MacroSum, RoundSum;
    FastFAgrees(t, b, c, d);
    TIsSum(t, a, b, c, d, e, w);
    SumOrder(e, F(t, b, c, d), w, K(t), Rotl5(a));
  }

  /** One of the macros `S_R0` to `S_R4`: only two registers change. */
  function RoundInPlace(r: seq<Word>, t: nat, w: Word): seq<Word>
    requires |r| == 5
  {
    var (v, x, y, z, u) := (Role(0, t), Role(1, t), Role(2, t), Role(3, t), Role(4, t));
    r[u := FastT(t, r[v], r[x], r[y], r[z], r[u], w)][x := Rotl30(r[x])]
  }

  lemma RoleMoves(t: nat)
    ensures Role(0, t + 1) == Role(4, t) && Role(1, t + 1) == Role(0, t) && Role(2, t + 1) == Role(1, t)
    ensures Role(3, t + 1) == Role(2, t) && Role(4, t + 1) == Role(3, t)
    ensures Role(0, t) != Role(1, t) && Role(0, t) != Role(2, t) && Role(0, t) != Role(3, t) && Role(0, t) != Role(4, t)
    ensures Role(1, t) != Role(2, t) && Role(1, t) != Role(3, t) && Role(1, t) != Role(4, t)
    ensures Role(2, t) != Role(3, t) && Role(2, t) != Role(4, t) && Role(3, t) != Role(4, t)
  {}

  lemma RoundInPlaceAgrees(r: seq<Word>, v: Hash, t: nat, w: Word)
    requires Registers(r, v, t)
    ensures Registers(RoundInPlace(r, t, w), Round(v, t, w), t + 1)
  {
    hide FastT, T, Rotl30, Role;
    RoleMoves(t);
    FastTAgrees(t, v.a, v.b, v.c, v.d, v.e, w);
  }

  // ----- the circular schedule

  /** The last sixteen words of the schedule, and those of the block that are
      still to be swapped, in a window of sixteen. */
  ghost predicate Window(l: seq<Word>, block: seq<Byte>, t: nat)
    requires |block| == 64
  {
    && |l| == 16
    && (forall s :: 0 <= s < t && t <= s + 16 ==> l[s % 16] == W(block, s))
    && (forall s :: t <= s < 16 ==> l[s] == LittleEndian(block[4 * s], block[4 * s + 1], block[4 * s + 2], block[4 * s + 3]))
  }

  /** `SHABLK0` and `SHABLK` */
  function NextWord(l: seq<Word>, t: nat): Word
    requires |l| == 16
  {
    if t < 16 then SwapBytes(l[t])
    else Mix(l[(t + 13) % 16], l[(t + 8) % 16], l[(t + 2) % 16], l[t % 16])
  }

  lemma Modulo16(t: nat)
    requires t >= 16
    ensures (t + 13) % 16 == (t - 3) % 16 && (t + 8) % 16 == (t - 8) % 16
    ensures (t + 2) % 16 == (t - 14) % 16 && t % 16 == (t - 16) % 16
  {}

  lemma NextWordAgrees(l: seq<Word>, block: seq<Byte>, t: nat)
    requires |block| == 64 && Window(l, block, t)
    ensures NextWord(l, t) == W(block, t)
    ensures Window(l[t % 16 := NextWord(l, t)], block, t + 1)
  {
    hide SwapBytes, LittleEndian, BigEndian, Mix;
    if t < 16 {
      SwapIsBigEndian(block[4 * t], block[4 * t + 1], block[4 * t + 2], block[4 * t + 3]);
    } else {
      Modulo16(t);
    }
    WindowMoves(l, block, t);
  }

  lemma WindowMoves(l: seq<Word>, block: seq<Byte>, t: nat)
    requires |block| == 64 && Window(l, block, t)
    ensures Window(l[t % 16 := W(block, t)], block, t + 1)
  {
    hide W, LittleEndian;
    var l' := l[t % 16 := W(block, t)];
    forall s | 0 <= s < t + 1 && t + 1 <= s + 16 ensures l'[s % 16] == W(block, s) {
      assert s < t ==> s % 16 != t % 16;
    }
    forall s | t + 1 <= s < 16 ensures l'[s] == l[s] {
      assert s != t % 16;
    }
  }

  // ----- streaming

  /** The bytes of the message that have been compressed. */
  function Whole(n: nat): nat {
    n - n % 64
  }

  /** The two count words hold the number of bits, modulo 2^64. */
  ghost predicate Counts(lo: u32, hi: u32, n: nat) {
    0x1_0000_0000 * hi + lo == (8 * n) % 0x1_0000_0000_0000_0000
  }

  class Sha {
    const state: array<Word>
    const block: array<Word>
    const buffer: array<Byte>
    var lo: u32
    var hi: u32
    var digest: seq<Byte>

    ghost predicate Shape()
      reads this
    {
      state.Length == 5 && block.Length == 16 && buffer.Length == 64 && state != block
    }

    ghost function Chain(): Hash
      reads this, state
      requires Shape()
    {
      Hash(state[0], state[1], state[2], state[3], state[4])
    }

    /** The whole blocks of `msg` are compressed and the rest is in the buffer. */
    ghost predicate Holds(msg: seq<Byte>)
      reads this, state, buffer
    {
      && Shape()
      && Chain() == Fold(IV, msg[..Whole(|msg|)])
      && buffer[..|msg| % 64] == msg[Whole(|msg|)..]
    }

    /** The object has absorbed the message `msg`. */
    ghost predicate Absorbed(msg: seq<Byte>)
      reads this, state, buffer
    {
      Holds(msg) && Counts(lo, hi, |msg|)
    }

    constructor ()
      ensures Absorbed([]) && fresh(state) && fresh(block) && fresh(buffer)
    {
      state, block, buffer := new Word[5], new Word[16], new Byte[64];
      lo, hi, digest := 0, 0, [];
      new;
      Reset();
    }

    method Reset()
      requires Shape()
      modifies this, state
      ensures Absorbed([])
    {
      state[0], state[1], state[2], state[3], state[4] := 0x67452301, 0xEFCDAB89, 0x98BADCFE, 0x10325476, 0xC3D2E1F0;
      lo, hi := 0, 0;
    }

    /** `memcpy` of a block into the workspace. */
    method Load(bytes: seq<Byte>)
      requires Shape() && |bytes| == 64
      modifies block
      ensures Window(block[..], bytes, 0)
    {
      var i := 0;
      while i < 16
        invariant 0 <= i <= 16
        invariant forall s :: 0 <= s < i ==>
          block[s] == LittleEndian(bytes[4 * s], bytes[4 * s + 1], bytes[4 * s + 2], bytes[4 * s + 3])
      {
        block[i] := LittleEndian(bytes[4 * i], bytes[4 * i + 1], bytes[4 * i + 2], bytes[4 * i + 3]);
        i := i + 1;
      }
    }

    /** `SHABLK0` and `SHABLK`: the next word of the schedule replaces the oldest one. */
    method Expand(t: nat, ghost bytes: seq<Byte>) returns (w: Word)
      requires Shape() && |bytes| == 64 && t < 80 && Window(block[..], bytes, t)
      modifies block
      ensures w == W(bytes, t) && Window(block[..], bytes, t + 1)
    {
      hide W, LittleEndian, SwapBytes, Mix, Window;
      ghost var l := block[..];
      NextWordAgrees(l, bytes, t);
      if t < 16 {
        w := SwapBytes(block[t]);
      } else {
        w := Mix(block[(t + 13) % 16], block[(t + 8) % 16], block[(t + 2) % 16], block[t % 16]);
      }
      assert w == NextWord(l, t);
      block[t % 16] := w;
      assert block[..] == l[t % 16 := w];
    }

    /** The eighty rounds, in registers whose roles move. */
    method Rotate(r0: seq<Word>, bytes: seq<Byte>, ghost h: Hash) returns (r: seq<Word>)
      requires Shape() && |bytes| == 64 && |r0| == 5 && Registers(r0, h, 0)
      modifies block
      ensures |r| == 5 && Registers(r, Rounds(h, bytes, 80), 80)
    {
      hide Registers, Round, RoundInPlace, Window, W;
      Load(bytes);
      r := r0;
      var t := 0;
      while t < 80
        invariant 0 <= t <= 80 && |r| == 5
        invariant Registers(r, Rounds(h, bytes, t), t)
        invariant Window(block[..], bytes, t)
      {
        var w := Expand(t, bytes);
        RoundInPlaceAgrees(r, Rounds(h, bytes, t), t, w);
        RoundInPlaceSize(r, t, w);
        r := RoundInPlace(r, t, w);
        t := t + 1;
      }
    }

    method Transform(bytes: seq<Byte>)
      requires Shape() && |bytes| == 64
      modifies state, block
      ensures Chain() == Compress(old(Chain()), bytes)
    {
      hide Rounds, Plus;
      ghost var h := Chain();
      var r := [state[0], state[1], state[2], state[3], state[4]];
      r := Rotate(r, bytes, h);
      state[0] := Plus(state[0], r[0]);
      state[1] := Plus(state[1], r[1]);
      state[2] := Plus(state[2], r[2]);
      state[3] := Plus(state[3], r[3]);
      state[4] := Plus(state[4], r[4]);
    }

    method CopyIn(j: nat, bytes: seq<Byte>)
      requires Shape() && j + |bytes| <= 64
      modifies buffer
      ensures buffer[..j + |bytes|] == old(buffer[..j]) + bytes
    {
      var i := 0;
      while i < |bytes|
        invariant 0 <= i <= |bytes|
        invariant buffer[..j + i] == old(buffer[..j]) + bytes[..i]
      {
        buffer[j + i] := bytes[i];
        i := i + 1;
      }
    }

    method Count(u: u32, ghost n: nat)
      requires Counts(lo, hi, n)
      modifies `lo, `hi
      ensures Counts(lo, hi, n + u)
    {
      CountsAdvance(lo, hi, n, u);
      var bits := Wrap(8 * u);
      lo := Add32(lo, bits);
      if lo < bits { hi := Add32(hi, 1); }
      hi := Add32(hi, u / 0x2000_0000);
    }

    /** The whole blocks of the new data, behind the `i` bytes already taken. */
    method Blocks(data: seq<Byte>, start: nat, ghost msg: seq<Byte>) returns (i: nat)
      requires Shape() && start <= |data| && (|msg| + start) % 64 == 0
      requires Chain() == Fold(IV, (msg + data)[..|msg| + start])
      modifies state, block
      ensures start <= i <= |data| < i + 64 && (|msg| + i) % 64 == 0
      ensures Chain() == Fold(IV, (msg + data)[..|msg| + i])
    {
      hide Fold, Compress;
      i := start;
      while i + 63 < |data|
        invariant start <= i <= |data| && (|msg| + i) % 64 == 0
        invariant Chain() == Fold(IV, (msg + data)[..|msg| + i])
      {
        FoldNext(msg + data, |msg| + i);
        SliceRight(msg, data, i, 64);
        Transform(data[i..i + 64]);
        i := i + 64;
      }
    }

    /** The buffer is filled up and compressed, then the whole blocks of the data. */
    method FillAndCompress(data: seq<Byte>, j: nat, ghost msg: seq<Byte>) returns (i: nat)
      requires Holds(msg) && j == |msg| % 64 && j + |data| > 63
      modifies state, block, buffer
      ensures i <= |data| < i + 64 && (|msg| + i) % 64 == 0
      ensures Chain() == Fold(IV, (msg + data)[..|msg| + i])
    {
      hide Fold, Compress, Counts;
      ghost var n, full := Whole(|msg|), msg + data;
      assert full[..n] == msg[..n];
      CopyIn(j, data[..64 - j]);
      FoldNext(full, n);
      JoinAt(msg, data, n, 64 - j);
      assert full[n..n + 64] == buffer[..64] == buffer[..];
      Transform(buffer[..]);
      i := Blocks(data, 64 - j, msg);
    }

    method Update(data: seq<Byte>, ghost msg: seq<Byte>)
      requires Absorbed(msg) && |data| < TWO32 - 128
      modifies `lo, `hi, state, block, buffer
      ensures Absorbed(msg + data)
    {
      hide Fold, Compress, Counts, Whole;
      CountsPosition(lo, hi, |msg|);
      var j := lo / 8 % 64;
      Count(|data|, |msg|);
      var i := 0;
      if j + |data| > 63 {
        i := FillAndCompress(data, j, msg);
        TailWhole(msg, data, i);
        j := 0;
      } else {
        TailPart(msg, data);
      }
      CopyIn(j, data[i..]);
    }

    /** Pads as `Final` does: a one bit, zero bytes until eight are missing, the length. */
    method PadAndAbsorb(ghost msg: seq<Byte>)
      requires Absorbed(msg)
      modifies `lo, `hi, state, block, buffer
      ensures Absorbed(Pad(msg))
    {
      hide Fold, Counts, Octet;
      CountBytes(lo, hi, |msg|);
      var final := [];
      var i := 0;
      while i < 8
        invariant 0 <= i <= 8 && |final| == i
        invariant forall k :: 0 <= k < i ==> final[k] == Octet(if k >= 4 then lo else hi, 3 - k % 4)
      {
        final := final + [Octet(if i >= 4 then lo else hi, 3 - i % 4)];
        i := i + 1;
      }
      assert final == Length64(8 * |msg|);
      ghost var cur, zeros := msg + [0x80], 0;
      Update([0x80], msg);
      CountsPosition(lo, hi, |cur|);
      while lo / 8 % 64 != 56
        invariant Absorbed(cur) && zeros <= ZeroBytes(|msg|)
        invariant cur == msg + [0x80] + seq(zeros, _ => 0)
        invariant lo / 8 % 64 == |cur| % 64
        decreases ZeroBytes(|msg|) - zeros
      {
        MoreZeros(|msg|, zeros);
        Update([0x00], cur);
        cur, zeros := cur + [0x00], zeros + 1;
        CountsPosition(lo, hi, |cur|);
      }
      EnoughZeros(|msg|, zeros);
      Update(final, cur);
    }

    method Final(ghost msg: seq<Byte>)
      requires Absorbed(msg)
      modifies this, state, block, buffer
      ensures Shape() && digest == Sha1Spec.Sha1(msg)
    {
      hide Fold, Counts, WordBytes;
      PadAndAbsorb(msg);
      assert Pad(msg)[..|Pad(msg)|] == Pad(msg);
      digest := WordBytes(state[0]) + WordBytes(state[1]) + WordBytes(state[2]) + WordBytes(state[3]) + WordBytes(state[4]);
      Wipe();
    }

    /** What is left behind says nothing about the message. */
    method Wipe()
      requires Shape()
      modifies `lo, `hi, state, block, buffer
      ensures lo == 0 && hi == 0 && Chain() == Compress(Hash(0, 0, 0, 0, 0), buffer[..])
      ensures forall i :: 0 <= i < 64 ==> buffer[i] == 0
    {
      hide Compress;
      forall i | 0 <= i < 64 { buffer[i] := 0; }
      state[0], state[1], state[2], state[3], state[4] := 0, 0, 0, 0, 0;
      lo, hi := 0, 0;
      Transform(buffer[..]);
    }
  }

  lemma MoreZeros(n: nat, zeros: nat)
    requires zeros <= ZeroBytes(n) && (n + 1 + zeros) % 64 != 56
    ensures zeros < ZeroBytes(n)
  {}

  lemma EnoughZeros(n: nat, zeros: nat)
    requires zeros <= ZeroBytes(n) && (n + 1 + zeros) % 64 == 56
    ensures zeros == ZeroBytes(n)
  {}

  // ----- the eight octets of the length

  function Pow256(m: nat): nat {
    if m == 0 then 1 else 256 * Pow256(m - 1)
  }

  lemma DropMultiple(p: nat, s: nat)
    ensures (256 * p + s) % 256 == s % 256 && (256 * p + s) / 256 == p + s / 256
  {
  }

  lemma NextPower(x: nat, m: nat)
    requires m > 0
    ensures x * Pow256(m) == 256 * (x * Pow256(m - 1))
  {
  }

  lemma {:induction false} ShiftSum(x: nat, y: nat, m: nat, k: nat)
    requires k <= m
    ensures Shift(x * Pow256(m) + y, k) == x * Pow256(m - k) + Shift(y, k)
  {
    if k > 0 {
      NextPower(x, m);
      DropMultiple(x * Pow256(m - 1), y);
      ShiftSum(x, y / 256, m - 1, k - 1);
    }
  }

  lemma {:induction false} ShiftShift(n: nat, i: nat, k: nat)
    ensures Shift(n, i + k) == Shift(Shift(n, i), k)
    decreases i
  {
    if i > 0 {
      ShiftShift(n / 256, i - 1, k);
    }
  }

  lemma {:induction false} ShiftSmall(y: nat, m: nat)
    requires y < Pow256(m)
    ensures Shift(y, m) == 0
  {
    if m > 0 {
      ShiftSmall(y / 256, m - 1);
    }
  }

  /** The low octets of a sum are those of its low part. */
  lemma DigitLow(x: nat, y: nat, m: nat, k: nat)
    requires k < m
    ensures Digit(x * Pow256(m) + y, k) == Digit(y, k)
  {
    ShiftSum(x, y, m, k);
    NextPower(x, m - k);
    DropMultiple(x * Pow256(m - k - 1), Shift(y, k));
  }

  lemma LowestPower(x: nat)
    ensures x * Pow256(0) == x
  {
  }

  lemma DigitHigh(x: nat, y: nat, m: nat, k: nat)
    requires y < Pow256(m)
    ensures Digit(x * Pow256(m) + y, m + k) == Digit(x, k)
  {
    hide Shift, Pow256;
    ShiftSum(x, y, m, m);
    ShiftSmall(y, m);
    ShiftShift(x * Pow256(m) + y, m, k);
    LowestPower(x);
    assert m - m == 0;
  }

  lemma Powers()
    ensures Pow256(4) == 0x1_0000_0000 && Pow256(8) == 0x1_0000_0000_0000_0000
  {
    assert Pow256(2) == 0x1_0000;
    assert Pow256(6) == 0x1_0000_0000_0000;
  }

  lemma CountsValue(lo: u32, hi: u32, n: nat)
    requires Counts(lo, hi, n)
    ensures 0x1_0000_0000 * hi + lo == (8 * n) % 0x1_0000_0000_0000_0000
  {
  }

  lemma CountDigit(lo: u32, hi: u32, n: nat, k: nat)
    requires Counts(lo, hi, n) && k < 8
    ensures Digit(if k >= 4 then lo else hi, 3 - k % 4) == Digit(8 * n, 7 - k)
  {
    var q := (8 * n) / 0x1_0000_0000_0000_0000;
    var y := 0x1_0000_0000 * hi + lo;
    Powers();
    hide Digit, Pow256, Counts;
    assert y == (8 * n) % 0x1_0000_0000_0000_0000 by {
      CountsValue(lo, hi, n);
    }
    assert 8 * n == q * Pow256(8) + y;
    assert y == hi * Pow256(4) + lo;
    DigitLow(q, y, 8, 7 - k);
    if k >= 4 {
      DigitLow(hi, lo, 4, 7 - k);
    } else {
      DigitHigh(hi, lo, 4, 3 - k);
    }
  }

  /** The octets taken from the two count words are those of the bit length. */
  lemma CountBytes(lo: u32, hi: u32, n: nat)
    requires Counts(lo, hi, n)
    ensures forall k :: 0 <= k < 8 ==> Octet(if k >= 4 then lo else hi, 3 - k % 4) == Length64(8 * n)[k]
  {
    hide Counts, Digit;
    forall k | 0 <= k < 8 ensures Octet(if k >= 4 then lo else hi, 3 - k % 4) == Length64(8 * n)[k] {
      CountDigit(lo, hi, n, k);
    }
  }

  lemma JoinAt(msg: seq<Byte>, data: seq<Byte>, n: nat, k: nat)
    requires n <= |msg| && k <= |data|
    ensures (msg + data)[n..|msg| + k] == msg[n..] + data[..k]
  {
  }

  lemma SliceRight(msg: seq<Byte>, data: seq<Byte>, i: nat, n: nat)
    requires i + n <= |data|
    ensures (msg + data)[|msg| + i..|msg| + i + n] == data[i..i + n]
  {
    var s, t := (msg + data)[|msg| + i..|msg| + i + n], data[i..i + n];
    forall k | 0 <= k < n ensures s[k] == t[k] {
      assert s[k] == (msg + data)[|msg| + i + k] == data[i + k];
    }
  }

  lemma TailWhole(msg: seq<Byte>, data: seq<Byte>, i: nat)
    requires i <= |data| < i + 64 && (|msg| + i) % 64 == 0
    ensures var full := msg + data;
      Whole(|full|) == |msg| + i && |full| % 64 == |data| - i && full[Whole(|full|)..] == data[i..]
  {}

  lemma TailPart(msg: seq<Byte>, data: seq<Byte>)
    requires |msg| % 64 + |data| <= 63
    ensures Whole(|msg|) <= |msg|
    ensures var full := msg + data;
      && Whole(|full|) == Whole(|msg|) && |full| % 64 == |msg| % 64 + |data|
      && full[..Whole(|full|)] == msg[..Whole(|msg|)]
      && full[Whole(|full|)..] == msg[Whole(|msg|)..] + data[0..]
  {
    var full := msg + data;
    assert |full| % 64 == |msg| % 64 + |data| && data[0..] == data;
  }

  /** One more block of a message. */
  lemma FoldNext(msg: seq<Byte>, n: nat)
    requires n % 64 == 0 && n + 64 <= |msg|
    ensures (n + 64) % 64 == 0 && Fold(IV, msg[..n + 64]) == Compress(Fold(IV, msg[..n]), msg[n..n + 64])
  {
    hide Compress;
    var b := msg[n..n + 64];
    FoldConcat(IV, msg[..n], b);
    assert msg[..n] + b == msg[..n + 64];
    assert b[..64] == b && b[64..] == [];
    assert Fold(Fold(IV, msg[..n]), b) == Fold(Compress(Fold(IV, msg[..n]), b), []);
  }

  lemma Shift29(u: u32)
    ensures 8 * u == 0x1_0000_0000 * (u / 0x2000_0000) + Wrap(8 * u)
  {}

  lemma Modulo64(x: int, q: int, r: int)
    requires x == 0x1_0000_0000_0000_0000 * q + r && 0 <= r < 0x1_0000_0000_0000_0000
    ensures x % 0x1_0000_0000_0000_0000 == r
  {}

  /** The carry from the low to the high count word. */
  lemma CountsAdvance(lo: u32, hi: u32, n: nat, u: u32)
    requires Counts(lo, hi, n)
    ensures var bits := Wrap(8 * u);
      var lo' := Add32(lo, bits);
      var hi' := Add32(if lo' < bits then Add32(hi, 1) else hi, u / 0x2000_0000);
      Counts(lo', hi', n + u)
  {
    var bits, c := Wrap(8 * u), u / 0x2000_0000;
    Shift29(u);
    hide Wrap;
    var lo' := Add32(lo, bits);
    var carry := if lo' < bits then 1 else 0;
    assert lo' == lo + bits - 0x1_0000_0000 * carry;
    var hi1 := if lo' < bits then Add32(hi, 1) else hi;
    var k1 := if hi + carry == 0x1_0000_0000 then 1 else 0;
    assert hi1 == hi + carry - 0x1_0000_0000 * k1;
    var hi' := Add32(hi1, c);
    var k2 := if hi1 + c >= 0x1_0000_0000 then 1 else 0;
    assert hi' == hi1 + c - 0x1_0000_0000 * k2;
    var q := (8 * n) / 0x1_0000_0000_0000_0000;
    Modulo64(8 * (n + u), q + k1 + k2, 0x1_0000_0000 * (hi' as int) + lo');
  }

  /** The low count word tells the fill of the buffer. */
  lemma CountsPosition(lo: u32, hi: u32, n: nat)
    requires Counts(lo, hi, n)
    ensures lo / 8 % 64 == n % 64
  {
    var q := (8 * n) / 0x1_0000_0000_0000_0000;
    var m := n - 0x2000_0000_0000_0000 * q - 0x2000_0000 * hi;
    assert lo == 8 * m;
    Eighth(lo, m);
    SameRemainder(n, m, 0x80_0000_0000_0000 * q + 0x80_0000 * hi);
  }

  lemma Eighth(x: nat, m: nat)
    requires x == 8 * m
    ensures x / 8 == m
  {}

  lemma SameRemainder(n: nat, m: nat, k: nat)
    requires n == m + 64 * k
    ensures n % 64 == m % 64
  {}

  lemma RoundInPlaceSize(r: seq<Word>, t: nat, w: Word)
    requires |r| == 5
    ensures |RoundInPlace(r, t, w)| == 5
  {}
}
