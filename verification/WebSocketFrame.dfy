/** WebSocket frames (section 5.2 of RFC 6455): building one and taking one off a buffer. */
module WebSocketFrame {
  import opened Serial

  const LIMIT: int := 0x8000_0000

  const CONTINUATION: byte := 0

  /** The bitwise exclusive or, from the lowest bit up. */
  function XorBits(a: nat, b: nat): nat
    decreases a + b
  {
    if a + b == 0 then 0 else 2 * XorBits(a / 2, b / 2) + (a + b) % 2
  }

  function Pow2(n: nat): nat {
    if n == 0 then 1 else 2 * Pow2(n - 1)
  }

  lemma {:induction false} XorBound(a: nat, b: nat, n: nat)
    requires a < Pow2(n) && b < Pow2(n)
    ensures XorBits(a, b) < Pow2(n)
  {
    if a + b > 0 {
      XorBound(a / 2, b / 2, n - 1);
    }
  }

  function Xor(a: byte, b: byte): byte {
    assert Pow2(4) == 16 && Pow2(8) == 256;
    XorBound(a, b, 8);
    XorBits(a, b)
  }

  /** What `wsFrameExtractBuffer` gives: the fields and the size of a frame, or no frame. */
  datatype Extracted = None | Some(fin: bool, opcode: byte, payload: seq<byte>, size: nat)

  datatype Masking = Plain | Key(m0: byte, m1: byte, m2: byte, m3: byte)

  function KeyByte(m: Masking, i: nat): byte {
    if m.Plain? then 0
    else if i % 4 == 0 then m.m0 else if i % 4 == 1 then m.m1 else if i % 4 == 2 then m.m2 else m.m3
  }

  /** A payload under a mask; the same function masks and unmasks. */
  function Masked(payload: seq<byte>, m: Masking): seq<byte> {
    if m.Plain? then payload else seq(|payload|, i requires 0 <= i < |payload| => Xor(payload[i], KeyByte(m, i)))
  }

  // ----- building

  function KeyBytes(m: Masking): seq<byte> {
    if m.Plain? then [] else [m.m0, m.m1, m.m2, m.m3]
  }

  /** The length field: 7 bits, 16 bits, or 64 bits of which the low 32 are set. */
  function LengthCode(n: nat): byte {
    if n <= 125 then n else if n <= 0xFFFF then 126 else 127
  }

  function LengthBytes(n: nat): seq<byte> {
    if n <= 125 then []
    else if n <= 0xFFFF then [n / 256, n % 256]
    else [0, 0, 0, 0, n / 0x100_0000 % 256, n / 0x1_0000 % 256, n / 256 % 256, n % 256]
  }

  function WithTopBit(x: byte, on: bool): byte {
    if on && x < 128 then x + 128 else x
  }

  function Header(kind: byte, fin: bool, m: Masking, n: nat): seq<byte> {
    [WithTopBit(kind, fin), WithTopBit(LengthCode(n), m.Key?)] + LengthBytes(n) + KeyBytes(m)
  }

  function Frame(kind: byte, fin: bool, m: Masking, payload: seq<byte>): seq<byte> {
    Header(kind, fin, m, |payload|) + Masked(payload, m)
  }

  // ----- taking apart

  /** The length announced by a buffer that starts with a frame, and where the mask or payload begins. */
  datatype Prefix = Short | Prefix(length: u32, at: nat)

  function Announced(b: seq<byte>): (p: Prefix)
    requires |b| >= 2
    ensures p.Prefix? ==> p.length < LIMIT && 2 <= p.at <= 10
  {
    var code := b[1] % 128;
    if code == 126 then
      if |b| < 4 then Short else Prefix(256 * (b[2] as int) + b[3], 4)
    else if code == 127 then
      if |b| < 10 || b[2] != 0 || b[3] != 0 || b[4] != 0 || b[5] != 0 || b[6] >= 128 then Short
      else Prefix(0x100_0000 * (b[6] as int) + 0x1_0000 * (b[7] as int) + 256 * (b[8] as int) + b[9], 10)
    else Prefix(code, 2)
  }

  function KeyAt(b: seq<byte>, at: nat): Masking
    requires at + 4 <= |b|
  {
    Key(b[at], b[at + 1], b[at + 2], b[at + 3])
  }

  function Extract(b: seq<byte>): (x: Extracted)
    ensures x.Some? ==> 2 <= x.size <= |b|
  {
    if |b| < 2 then None else
    var p := Announced(b);
    if p.Short? then None else
    var masked := b[1] >= 128;
    var at := if masked then p.at + 4 else p.at;
    if |b| < at + p.length then None else
    var m := if masked then KeyAt(b, p.at) else Plain;
    Some(b[0] >= 128, b[0] % 16, Masked(b[at..at + p.length], m), at + p.length)
  }

  // ----- laws

  lemma XorUnfold(a: nat, b: nat)
    ensures XorBits(a, b) == 2 * XorBits(a / 2, b / 2) + (a + b) % 2
  {
  }

  lemma Parity(y: nat, a: nat, k: nat)
    ensures var x := 2 * y + (a + k) % 2;
      x / 2 == y && (x + k) % 2 == a % 2
  {
  }

  lemma Halves(a: nat)
    ensures 2 * (a / 2) + a % 2 == a
  {
  }

  lemma {:induction false} XorBitsTwice(a: nat, k: nat)
    ensures XorBits(XorBits(a, k), k) == a
    decreases a + k
  {
    hide XorBits;
    XorUnfold(a, k);
    XorUnfold(XorBits(a, k), k);
    if a + k > 0 {
      XorBitsTwice(a / 2, k / 2);
      Parity(XorBits(a / 2, k / 2), a, k);
      Halves(a);
    } else {
      XorUnfold(0, 0);
    }
  }

  lemma XorTwice(a: byte, k: byte)
    ensures Xor(Xor(a, k), k) == a
  {
    XorBitsTwice(a, k);
  }

  // The exclusive or on integers is the one on bit-vectors.

  function Number(x: bv8): nat { x as int }

  function XorOf(x: bv8, y: bv8): bv8 { x ^ y }

  function Half(x: bv8): bv8 { x >> 1 }

  lemma HalfIs(x: bv8)
    ensures Number(Half(x)) == Number(x) / 2 && Number(x & 1) == Number(x) % 2
  {
  }

  lemma XorParts(x: bv8, y: bv8)
    ensures Half(XorOf(x, y)) == XorOf(Half(x), Half(y)) && XorOf(x, y) & 1 == (x & 1) ^ (y & 1)
  {
  }

  lemma XorLow(x: bv8, y: bv8)
    ensures Number((x & 1) ^ (y & 1)) == (Number(x & 1) + Number(y & 1)) % 2
  {
  }

  lemma XorStep(x: bv8, y: bv8)
    ensures var z := XorOf(x, y);
      Number(z) / 2 == Number(XorOf(Half(x), Half(y))) && Number(z) % 2 == (Number(x) + Number(y)) % 2
  {
    HalfIs(x);
    HalfIs(y);
    HalfIs(XorOf(x, y));
    XorParts(x, y);
    XorLow(x, y);
    hide Number, XorOf, Half;
    Odd(Number(x), Number(y));
  }

  lemma Odd(a: nat, b: nat)
    ensures (a % 2 + b % 2) % 2 == (a + b) % 2
  {
  }

  lemma NothingSet(x: bv8, y: bv8)
    requires Number(x) + Number(y) == 0
    ensures Number(XorOf(x, y)) == 0
  {
  }

  lemma {:induction false} XorBitwise(x: bv8, y: bv8)
    ensures Number(XorOf(x, y)) == XorBits(Number(x), Number(y))
    decreases Number(x) + Number(y)
  {
    hide Number, XorOf, Half, XorBits;
    XorUnfold(Number(x), Number(y));
    if Number(x) + Number(y) == 0 {
      NothingSet(x, y);
      XorUnfold(0, 0);
    } else {
      HalfIs(x);
      HalfIs(y);
      XorStep(x, y);
      XorBitwise(Half(x), Half(y));
      Halves(Number(XorOf(x, y)));
    }
  }

  lemma NumberBack(a: byte)
    ensures Number(a as bv8) == a
  {
  }

  lemma NumberInverse(a: byte, z: bv8)
    requires Number(z) == a
    ensures a as bv8 == z
  {
  }

  /** The octet `o` is the exclusive or of two others, on bit-vectors. */
  predicate IsXor(o: byte, a: byte, b: byte) {
    o as bv8 == (a as bv8) ^ (b as bv8)
  }

  /** What `Xor` is: the operation of the machine on octets. */
  lemma XorMeans(a: byte, b: byte)
    ensures IsXor(Xor(a, b), a, b)
  {
    var x, y := a as bv8, b as bv8;
    assert XorOf(x, y) == x ^ y;
    XorBitwise(x, y);
    NumberBack(a);
    NumberBack(b);
    hide Number, XorOf, XorBits;
    NumberInverse(Xor(a, b), XorOf(x, y));
  }

  lemma MaskTwice(p: seq<byte>, m: Masking)
    ensures |Masked(p, m)| == |p| && Masked(Masked(p, m), m) == p
  {
    hide Xor;
    if m.Key? {
      forall i | 0 <= i < |p| ensures Xor(Xor(p[i], KeyByte(m, i)), KeyByte(m, i)) == p[i] {
        XorTwice(p[i], KeyByte(m, i));
      }
    }
  }

  lemma LowOctet(h: nat, d: byte)
    ensures (256 * h + d) / 256 == h && (256 * h + d) % 256 == d
  {
  }

  lemma FourOctets(n: nat, h: nat, d3: byte, d2: byte, d1: byte, d0: byte)
    requires n == TWO32 * h + (0x100_0000 * (d3 as int) + 0x1_0000 * (d2 as int) + 256 * (d1 as int) + d0)
    ensures n / 0x100_0000 % 256 == d3 && n / 0x1_0000 % 256 == d2 && n / 256 % 256 == d1 && n % 256 == d0
  {
    LowOctet(0x100_0000 * h + 0x1_0000 * (d3 as int) + 256 * (d2 as int) + d1, d0);
    LowOctet(0x1_0000 * h + 256 * (d3 as int) + d2, d1);
    LowOctet(256 * h + d3, d2);
    LowOctet(h, d3);
    Quotient(n, 0x1_0000, 0x1_0000 * h + 256 * (d3 as int) + d2, 256 * (d1 as int) + d0);
    Quotient(n, 0x100_0000, 256 * h + d3, 0x1_0000 * (d2 as int) + 256 * (d1 as int) + d0);
  }

  lemma Top(w: u32, a: nat, b: nat)
    requires a == w / 256 && b == a / 256
    ensures b / 256 < 256
    ensures w == 0x100_0000 * (b / 256) + 0x1_0000 * (b % 256) + 256 * (a % 256) + w % 256
  {
  }

  lemma Octets32(n: nat)
    ensures 0x100_0000 * (n / 0x100_0000 % 256) + 0x1_0000 * (n / 0x1_0000 % 256) + 256 * (n / 256 % 256) + n % 256 == n % TWO32
  {
    var w, h := n % TWO32, n / TWO32;
    var a := w / 256;
    var b := a / 256;
    Top(w, a, b);
    FourOctets(n, h, b / 256, b % 256, a % 256, w % 256);
  }

  /** The two first octets of a frame. */
  lemma TopBits(kind: byte, fin: bool, m: Masking, n: nat)
    ensures var b0, b1 := WithTopBit(kind, fin), WithTopBit(LengthCode(n), m.Key?);
      && (b0 >= 128 <==> fin || kind >= 128) && b0 % 16 == kind % 16
      && (b1 >= 128 <==> m.Key?) && b1 % 128 == LengthCode(n)
  {
  }

  lemma HeaderLayout(kind: byte, fin: bool, m: Masking, n: nat, rest: seq<byte>)
    ensures var b := Header(kind, fin, m, n) + rest;
      && |Header(kind, fin, m, n)| == 2 + |LengthBytes(n)| + |KeyBytes(m)|
      && b[0] == WithTopBit(kind, fin) && b[1] == WithTopBit(LengthCode(n), m.Key?)
      && b[2..] == LengthBytes(n) + (KeyBytes(m) + rest)
  {
    hide WithTopBit, LengthCode, LengthBytes, KeyBytes;
  }

  /** The length field of a frame is read back, unless its 32 bits have the top bit set. */
  lemma LengthRoundTrip(b: seq<byte>, n: nat, rest: seq<byte>)
    requires |b| >= 2 && b[1] % 128 == LengthCode(n) && b[2..] == LengthBytes(n) + rest
    ensures Announced(b) == if n <= 0xFFFF || n % TWO32 < LIMIT then Prefix(n % TWO32, 2 + |LengthBytes(n)|) else Short
  {
    assert |b| == 2 + |LengthBytes(n)| + |rest|;
    if n <= 0xFFFF {
      assert n > 125 ==> b[2] == b[2..][0] && b[3] == b[2..][1];
    } else {
      Octets32(n);
      var t := b[2..];
      assert b[2] == t[0] && b[3] == t[1] && b[4] == t[2] && b[5] == t[3];
      assert b[6] == t[4] && b[7] == t[5] && b[8] == t[6] && b[9] == t[7];
    }
  }

  /** What a parser sees of the header of a built frame. */
  lemma HeaderMeans(kind: byte, fin: bool, m: Masking, n: nat, rest: seq<byte>)
    ensures var h := Header(kind, fin, m, n);
      var b := h + rest;
      var at := 2 + |LengthBytes(n)|;
      && |b| >= 2 && (b[0] >= 128 <==> fin || kind >= 128) && b[0] % 16 == kind % 16 && (b[1] >= 128 <==> m.Key?)
      && Announced(b) == (if n <= 0xFFFF || n % TWO32 < LIMIT then Prefix(n % TWO32, at) else Short)
      && |h| == at + (if m.Key? then 4 else 0)
      && (m.Key? ==> KeyAt(b, at) == m)
  {
    HeaderLayout(kind, fin, m, n, rest);
    TopBits(kind, fin, m, n);
    hide WithTopBit, LengthCode, LengthBytes, Announced, Header;
    var h := Header(kind, fin, m, n);
    var b := h + rest;
    LengthRoundTrip(b, n, KeyBytes(m) + rest);
    if m.Key? {
      var t, k := b[2..], |LengthBytes(n)|;
      assert forall i :: 0 <= i < 4 ==> b[2 + k + i] == t[k + i] == KeyBytes(m)[i];
    }
  }

  lemma FrameExtracted(kind: byte, fin: bool, m: Masking, payload: seq<byte>, rest: seq<byte>)
    requires |payload| < LIMIT
    ensures var f := Frame(kind, fin, m, payload);
      Extract(f + rest) == Some(fin || kind >= 128, kind % 16, payload, |f|)
  {
    hide Header, Masked, Announced, LengthBytes, KeyAt;
    var n := |payload|;
    var h, body := Header(kind, fin, m, n), Masked(payload, m);
    var b := h + (body + rest);
    HeaderMeans(kind, fin, m, n, body + rest);
    MaskTwice(payload, m);
    assert Frame(kind, fin, m, payload) + rest == b;
    assert n % TWO32 == n;
    assert b[|h|..|h| + n] == body;
    assert m.Plain? ==> Masked(body, m) == payload;
  }

  /** A built frame, whatever follows it, comes out of the parser as it went in
      exactly when its payload is shorter than 2^31 octets. */
  lemma RoundTrip(kind: byte, fin: bool, m: Masking, payload: seq<byte>, rest: seq<byte>)
    ensures var f := Frame(kind, fin, m, payload);
      Extract(f + rest) == Some(fin || kind >= 128, kind % 16, payload, |f|) <==> |payload| < LIMIT
  {
    hide Frame, Extract;
    if |payload| < LIMIT {
      FrameExtracted(kind, fin, m, payload, rest);
    } else if Extract(Frame(kind, fin, m, payload) + rest).Some? {
      ExtractedLength(Frame(kind, fin, m, payload) + rest);
    }
  }

  /** Bytes after the frame do not matter. */
  lemma ExtractStable(b: seq<byte>, rest: seq<byte>)
    requires Extract(b).Some?
    ensures Extract(b + rest) == Extract(b)
  {
    hide Masked;
    var p := Announced(b);
    assert Announced(b + rest) == p;
    var at := if b[1] >= 128 then p.at + 4 else p.at;
    assert (b + rest)[at..at + p.length] == b[at..at + p.length];
  }

  /** No frame is found before all of it is there. */
  lemma ExtractWaits(b: seq<byte>, k: nat)
    requires Extract(b).Some? && k < Extract(b).size
    ensures Extract(b[..k]) == None
  {
    hide Masked;
    if k >= 2 {
      assert Announced(b[..k]) == Announced(b) || Announced(b[..k]) == Short;
    }
  }

  lemma ExtractedLength(b: seq<byte>)
    requires Extract(b).Some?
    ensures |Extract(b).payload| < LIMIT
  {
    hide Xor, KeyByte;
  }

  // ----- the octets of a frame, against sections 5.2 and 5.3 of RFC 6455

  /** The number that octets stand for, the most significant first. */
  function BigEndian(octets: seq<byte>): nat {
    if octets == [] then 0 else 256 * BigEndian(octets[..|octets| - 1]) + octets[|octets| - 1]
  }

  lemma BigEndianNext(octets: seq<byte>, d: byte)
    ensures BigEndian(octets + [d]) == 256 * BigEndian(octets) + d
  {
    assert (octets + [d])[..|octets|] == octets;
  }

  lemma BigEndianTwo(a: byte, b: byte)
    ensures BigEndian([a, b]) == 256 * (a as int) + b
  {
    BigEndianNext([], a);
    BigEndianNext([a], b);
    assert [] + [a] == [a] && [a] + [b] == [a, b];
  }

  lemma BigEndianFour(h: seq<byte>, a: byte, b: byte, c: byte, d: byte)
    ensures BigEndian(h + [a, b, c, d])
      == TWO32 * BigEndian(h) + (0x100_0000 * (a as int) + 0x1_0000 * (b as int) + 256 * (c as int) + d)
  {
    hide BigEndian;
    BigEndianNext(h, a);
    BigEndianNext(h + [a], b);
    BigEndianNext(h + [a] + [b], c);
    BigEndianNext(h + [a] + [b] + [c], d);
    assert h + [a] + [b] + [c] + [d] == h + [a, b, c, d];
  }

  /** How many octets of extended length follow the first two. */
  function ExtendedSize(b: seq<byte>): nat
    requires |b| >= 2
  {
    if b[1] % 128 == 126 then 2 else if b[1] % 128 == 127 then 8 else 0
  }

  /** The payload length a complete length field announces. */
  function PayloadLength(b: seq<byte>): nat
    requires |b| >= 2 && |b| >= 2 + ExtendedSize(b)
  {
    if ExtendedSize(b) == 0 then b[1] % 128 else BigEndian(b[2..2 + ExtendedSize(b)])
  }

  lemma LongLength(b: seq<byte>)
    requires |b| >= 10
    ensures var n := BigEndian(b[2..10]);
      && (n < LIMIT <==> b[2] == 0 && b[3] == 0 && b[4] == 0 && b[5] == 0 && b[6] < 128)
      && (n < LIMIT ==> n == 0x100_0000 * (b[6] as int) + 0x1_0000 * (b[7] as int) + 256 * (b[8] as int) + b[9])
  {
    hide BigEndian;
    var h, low := [b[2], b[3], b[4], b[5]], [b[6], b[7], b[8], b[9]];
    assert b[2..10] == h + low;
    BigEndianFour(h, b[6], b[7], b[8], b[9]);
    BigEndianFour([], b[2], b[3], b[4], b[5]);
    assert [] + h == h;
    assert BigEndian([]) == 0 by {
      EmptyNumber();
    }
  }

  lemma EmptyNumber()
    ensures BigEndian([]) == 0
  {
  }

  /** The length field is read in full, as one number, and refused exactly when it is incomplete or
      2^31 and more. */
  lemma AnnouncedMeans(b: seq<byte>)
    requires |b| >= 2
    ensures Announced(b).Prefix? <==> |b| >= 2 + ExtendedSize(b) && PayloadLength(b) < LIMIT
    ensures Announced(b).Prefix? ==> Announced(b) == Prefix(PayloadLength(b), 2 + ExtendedSize(b))
  {
    hide BigEndian;
    if ExtendedSize(b) == 2 && |b| >= 4 {
      assert b[2..4] == [b[2], b[3]];
      BigEndianTwo(b[2], b[3]);
    } else if ExtendedSize(b) == 8 && |b| >= 10 {
      LongLength(b);
    }
  }

  /** Masking: octet `i` of the payload is combined with octet `i` modulo 4 of the key, in the order
      in which the key stands in the frame. */
  lemma MaskMeans(p: seq<byte>, m: Masking, i: nat)
    requires i < |p|
    ensures |Masked(p, m)| == |p|
    ensures m.Key? ==> IsXor(Masked(p, m)[i], p[i], KeyBytes(m)[i % 4])
    ensures m.Plain? ==> Masked(p, m)[i] == p[i]
  {
    hide Xor, IsXor;
    if m.Key? {
      XorMeans(p[i], KeyBytes(m)[i % 4]);
      assert KeyByte(m, i) == KeyBytes(m)[i % 4];
    }
  }

  /** A frame as it lies in the buffer: where its payload begins, and whether all of it is there. */
  function PayloadAt(b: seq<byte>): nat
    requires |b| >= 2
  {
    2 + ExtendedSize(b) + if b[1] >= 128 then 4 else 0
  }

  predicate Complete(b: seq<byte>) {
    && |b| >= 2 && |b| >= 2 + ExtendedSize(b)
    && PayloadLength(b) < LIMIT && |b| >= PayloadAt(b) + PayloadLength(b)
  }

  function KeyIn(b: seq<byte>): Masking
    requires |b| >= 2 && |b| >= PayloadAt(b)
  {
    if b[1] >= 128 then KeyAt(b, PayloadAt(b) - 4) else Plain
  }

  lemma ExtractParts(b: seq<byte>)
    ensures Extract(b) ==
      if Complete(b) then
        var at, n := PayloadAt(b), PayloadLength(b);
        Some(b[0] >= 128, b[0] % 16, Masked(b[at..at + n], KeyIn(b)), at + n)
      else None
  {
    hide Masked, PayloadLength, Announced;
    if |b| >= 2 {
      AnnouncedMeans(b);
    }
  }

  /** `wsFrameExtractBuffer` by the octets of its argument: a frame is found exactly when all of one
      is there and its length is below 2^31, with the final bit, the opcode, the size and the
      payload, each octet unmasked with the octet of the key that stands in the frame. */
  lemma ExtractMeans(b: seq<byte>)
    ensures Extract(b).Some? <==> Complete(b)
    ensures Complete(b) ==>
      var x, at := Extract(b), PayloadAt(b);
      && (x.fin <==> b[0] >= 128) && x.opcode == b[0] % 16 && x.size == at + PayloadLength(b)
      && |x.payload| == PayloadLength(b)
      && forall i :: 0 <= i < |x.payload| ==>
           if b[1] >= 128 then IsXor(x.payload[i], b[at + i], b[at - 4 + i % 4])
           else x.payload[i] == b[at + i]
  {
    hide Masked, PayloadLength, Announced, Extract, IsXor;
    ExtractParts(b);
    if Complete(b) {
      var at, n := PayloadAt(b), PayloadLength(b);
      MaskTwice(b[at..at + n], KeyIn(b));
      forall i | 0 <= i < n
        ensures var o := Extract(b).payload[i];
          if b[1] >= 128 then IsXor(o, b[at + i], b[at - 4 + i % 4]) else o == b[at + i]
      {
        MaskMeans(b[at..at + n], KeyIn(b), i);
      }
    }
  }

  lemma LengthSpelled(n: nat)
    requires n > 125
    ensures BigEndian(LengthBytes(n)) == n % TWO32
  {
    hide BigEndian;
    if n <= 0xFFFF {
      BigEndianTwo(n / 256, n % 256);
    } else {
      var zeros: seq<byte> := [0, 0, 0, 0];
      BigEndianFour([], 0, 0, 0, 0);
      EmptyNumber();
      assert [] + zeros == zeros;
      BigEndianFour(zeros, n / 0x100_0000 % 256, n / 0x1_0000 % 256, n / 256 % 256, n % 256);
      Octets32(n);
      assert LengthBytes(n) == zeros + [n / 0x100_0000 % 256, n / 0x1_0000 % 256, n / 256 % 256, n % 256];
    }
  }

  lemma FrameLength(kind: byte, fin: bool, m: Masking, n: nat, rest: seq<byte>)
    ensures var b := Header(kind, fin, m, n) + rest;
      && |b| >= 2 && ExtendedSize(b) == |LengthBytes(n)| && |b| >= 2 + ExtendedSize(b)
      && PayloadLength(b) == n % TWO32 && PayloadAt(b) == |Header(kind, fin, m, n)|
  {
    hide Header, BigEndian, WithTopBit;
    var b := Header(kind, fin, m, n) + rest;
    HeaderLayout(kind, fin, m, n, rest);
    TopBits(kind, fin, m, n);
    var e := |LengthBytes(n)|;
    assert b[2..2 + e] == b[2..][..e] == LengthBytes(n);
    if n > 125 {
      LengthSpelled(n);
    }
  }

  /** `wsFrameBuild` by the octets of its result: the final bit, the opcode, the length (modulo 2^32), the
      key and the masked payload lie where a parser of the standard looks for them. */
  lemma FrameMeans(kind: byte, fin: bool, m: Masking, payload: seq<byte>)
    ensures var f := Frame(kind, fin, m, payload);
      && |f| >= 2 && (f[0] >= 128 <==> fin || kind >= 128) && f[0] % 16 == kind % 16
      && (f[1] >= 128 <==> m.Key?) && |f| == PayloadAt(f) + |payload| && PayloadLength(f) == |payload| % TWO32
      && (m.Key? ==> f[PayloadAt(f) - 4..PayloadAt(f)] == KeyBytes(m))
      && forall i :: 0 <= i < |payload| ==>
           var o := f[PayloadAt(f) + i];
           if m.Key? then IsXor(o, payload[i], KeyBytes(m)[i % 4]) else o == payload[i]
  {
    hide Masked, Header, Announced, LengthBytes, IsXor, ExtendedSize, PayloadLength;
    var f, n := Frame(kind, fin, m, payload), |payload|;
    var h, body := Header(kind, fin, m, n), Masked(payload, m);
    HeaderMeans(kind, fin, m, n, body);
    FrameLength(kind, fin, m, n, body);
    MaskTwice(payload, m);
    var at := PayloadAt(f);
    if m.Key? {
      assert KeyAt(f, at - 4) == m;
    }
    forall i | 0 <= i < n
      ensures var o := f[at + i];
        if m.Key? then IsXor(o, payload[i], KeyBytes(m)[i % 4]) else o == payload[i]
    {
      assert f[at + i] == body[i];
      MaskMeans(payload, m, i);
    }
  }

  // ----- the two operations

  method MaskInto(frame: seq<byte>, payload: seq<byte>, m: Masking) returns (r: seq<byte>)
    requires m.Key?
    ensures r == frame + Masked(payload, m)
  {
    hide Xor;
    r := frame;
    for i := 0 to |payload|
      invariant r == frame + Masked(payload, m)[..i]
    {
      r := r + [Xor(payload[i], KeyByte(m, i))];
    }
  }

  method PushLength(head: byte, n: nat) returns (frame: seq<byte>)
    ensures frame == [head, LengthCode(n)] + LengthBytes(n)
  {
    frame := [head];
    if n <= 125 {
      frame := frame + [n];
    } else if n <= 0xFFFF {
      frame := frame + [126];
      frame := frame + [n / 256];
      frame := frame + [n % 256];
    } else {
      frame := frame + [127];
      frame := frame + [0] + [0] + [0] + [0];
      frame := frame + [n / 0x100_0000 % 256] + [n / 0x1_0000 % 256] + [n / 256 % 256] + [n % 256];
    }
  }

  /** `wsFrameBuild`; the random mask is a parameter. */
  method Build(payload: seq<byte>, kind: byte, fin: bool, m: Masking) returns (frame: seq<byte>)
    ensures frame == Frame(kind, fin, m, payload)
  {
    hide Xor, KeyByte, Masked, LengthCode, LengthBytes;
    var n := |payload|;
    frame := PushLength(WithTopBit(kind, fin), n);
    if m.Key? {
      frame := frame[1 := WithTopBit(frame[1], true)];
      frame := frame + [m.m0] + [m.m1] + [m.m2] + [m.m3];
      assert frame == Header(kind, fin, m, n);
      frame := MaskInto(frame, payload, m);
    } else {
      assert frame == Header(kind, fin, m, n);
      frame := frame + payload;
      PlainMask(payload);
    }
  }

  lemma PlainMask(payload: seq<byte>)
    ensures Masked(payload, Plain) == payload
  {
  }

  /** The length field as the parser reads it; `ok` is false where it gives up. */
  method ReadLength(b: array<byte>, size: nat) returns (ok: bool, length: u32, pos: nat)
    requires 2 <= size <= b.Length
    ensures ok == Announced(b[..size]).Prefix?
    ensures ok ==> Announced(b[..size]) == Prefix(length, pos)
  {
    ok, length, pos := true, b[1] % 128, 2;
    if length == 126 {
      if size < 4 {
        return false, length, pos;
      }
      length := 256 * (b[2] as int) + b[3];
      pos := 4;
    } else if length == 127 {
      if size < 10 {
        return false, length, pos;
      }
      if b[2] != 0 || b[3] != 0 || b[4] != 0 || b[5] != 0 {
        return false, length, pos;
      }
      if b[6] >= 128 {
        return false, length, pos;
      }
      length := 0x100_0000 * (b[6] as int) + 0x1_0000 * (b[7] as int) + 256 * (b[8] as int) + b[9];
      pos := 10;
    }
  }

  /** `wsFrameExtractBuffer`: the payload is appended to the string given. */
  method ExtractBuffer(b: array<byte>, size: nat, given: seq<byte>)
      returns (ok: bool, payload: seq<byte>, opcode: byte, frameSize: nat, fin: bool)
    requires size <= b.Length
    ensures ok == Extract(b[..size]).Some?
    ensures ok ==> given <= payload && Extract(b[..size]) == Some(fin, opcode, payload[|given|..], frameSize)
    ensures !ok ==> payload == given
  {
    hide Announced, Masked;
    ok, payload, opcode, frameSize, fin := false, given, 255, 0, false;
    if size < 2 {
      return;
    }
    fin := b[0] >= 128;
    opcode := b[0] % 16;
    var masking := b[1] >= 128;
    var known, length, pos := ReadLength(b, size);
    if !known {
      return;
    }
    var m := Plain;
    if masking {
      if size < pos + 4 {
        return;
      }
      m := Key(b[pos], b[pos + 1], b[pos + 2], b[pos + 3]);
      pos := pos + 4;
    }
    if size < pos + length {
      return;
    }
    assert b[..size][pos..pos + length] == b[pos..pos + length];
    if masking {
      payload := MaskInto(payload, b[pos..pos + length], m);
    } else {
      payload := payload + b[pos..pos + length];
      PlainMask(b[pos..pos + length]);
    }
    assert payload == given + Masked(b[pos..pos + length], m);
    assert payload[|given|..] == Masked(b[pos..pos + length], m);
    frameSize := length + pos;
    ok := true;
  }
}
