/** Segments and their wire format. */
module KcpWire {
  import opened Serial

  const CMD_PUSH: byte := 81
  const CMD_ACK: byte := 82
  const CMD_WASK: byte := 83
  const CMD_WINS: byte := 84
  const OVERHEAD: nat := 24

  /** `IKCPSEG`.  The fields after `data` never travel. */
  datatype Segment = Segment(
    conv: u32, cmd: byte, frg: byte, wnd: u32, ts: u32, sn: u32, una: u32, data: seq<byte>,
    resendts: u32, rto: u32, fastack: u32, xmit: u32)

  type Datagram = seq<byte>

  predicate KnownCmd(cmd: byte) {
    cmd == CMD_PUSH || cmd == CMD_ACK || cmd == CMD_WASK || cmd == CMD_WINS
  }

  // ----- integers, least significant byte first

  function Encode16(w: int): (b: seq<byte>)
    ensures |b| == 2
  {
    [w % 256, w / 256 % 256]
  }

  function Encode32(l: u32): (b: seq<byte>)
    ensures |b| == 4
  {
    Encode16(l) + Encode16(l / 0x1_0000)
  }

  function Decode16(b: seq<byte>): (w: u16)
    requires |b| == 2
  {
    (b[0] as int) + 256 * (b[1] as int)
  }

  function Decode32(b: seq<byte>): (l: u32)
    requires |b| == 4
  {
    (Decode16(b[..2]) as int) + 0x1_0000 * (Decode16(b[2..]) as int)
  }

  lemma RoundTrip16(w: int)
    ensures Decode16(Encode16(w)) == w % 0x1_0000
  {}

  lemma RoundTrip32(l: u32)
    ensures Decode32(Encode32(l)) == l
  {
    RoundTrip16(l);
    RoundTrip16(l / 0x1_0000);
    assert Encode32(l)[..2] == Encode16(l);
    assert Encode32(l)[2..] == Encode16(l / 0x1_0000);
  }

  // ----- segments

  /** `ikcp_encode_seg`: the 24 header bytes.  The window field keeps its low 16 bits. */
  function EncodeHeader(seg: Segment): (b: seq<byte>)
    ensures |b| == OVERHEAD
  {
    Encode32(seg.conv) + [seg.cmd, seg.frg] + Encode16(seg.wnd) + Encode32(seg.ts)
    + Encode32(seg.sn) + Encode32(seg.una) + Encode32(Wrap(|seg.data|))
  }

  function Encode(seg: Segment): (b: seq<byte>)
    ensures |b| == OVERHEAD + |seg.data|
  {
    EncodeHeader(seg) + seg.data
  }

  /** What a peer can see of a segment. */
  function OnWire(seg: Segment): (r: Segment) {
    seg.(wnd := seg.wnd % 0x1_0000, resendts := 0, rto := 0, fastack := 0, xmit := 0)
  }

  /** One turn of the decoding loop of `ikcp_input`. */
  datatype Parsed = Parsed(seg: Segment, size: nat) | Bad(rc: int) | Done

  function LengthField(b: seq<byte>): u32
    requires |b| >= OVERHEAD
  {
    Decode32(b[20..24])
  }

  function Parse(conv: u32, b: seq<byte>): (r: Parsed)
    ensures r.Parsed? ==> OVERHEAD <= r.size <= |b| && r.size == OVERHEAD + |r.seg.data|
    ensures r.Parsed? ==> r.seg.conv == conv && KnownCmd(r.seg.cmd) && r.seg.wnd < 0x1_0000
  {
    if |b| < OVERHEAD then Done
    else if Decode32(b[0..4]) != conv then Bad(-1)
    else
      var len := LengthField(b);
      if |b| - OVERHEAD < len || Signed(len) < 0 then Bad(-2)
      else if !KnownCmd(b[4]) then Bad(-3)
      else
        Parsed(Segment(conv, b[4], b[5], Decode16(b[6..8]), Decode32(b[8..12]), Decode32(b[12..16]),
                       Decode32(b[16..20]), b[24..24 + len], 0, 0, 0, 0), OVERHEAD + len)
  }

  lemma Slice(parts: seq<byte>, x: seq<byte>, tail: seq<byte>)
    ensures (parts + x + tail)[|parts|..|parts| + |x|] == x
  {}

  /** Where the fields of an encoded segment lie. */
  lemma Fields(seg: Segment, rest: seq<byte>, b: seq<byte>)
    requires b == Encode(seg) + rest
    ensures b[0..4] == Encode32(seg.conv) && b[4] == seg.cmd && b[5] == seg.frg
    ensures b[6..8] == Encode16(seg.wnd)
    ensures b[8..12] == Encode32(seg.ts)
    ensures b[12..16] == Encode32(seg.sn)
    ensures b[16..20] == Encode32(seg.una)
    ensures b[20..24] == Encode32(Wrap(|seg.data|))
    ensures b[24..24 + |seg.data|] == seg.data
    ensures b[24 + |seg.data|..] == rest
  {
    var c, w, t := Encode32(seg.conv), Encode16(seg.wnd), Encode32(seg.ts);
    var s, u, l := Encode32(seg.sn), Encode32(seg.una), Encode32(Wrap(|seg.data|));
    var m := [seg.cmd, seg.frg];
    Slice([], c, m + w + t + s + u + l + seg.data + rest);
    assert b == c + m + w + t + s + u + l + seg.data + rest;
  }

  lemma Field32(b: seq<byte>, i: nat, v: u32)
    requires i + 4 <= |b| && b[i..i + 4] == Encode32(v)
    ensures Decode32(b[i..i + 4]) == v
  {
    RoundTrip32(v);
  }

  lemma ParseFields(b: seq<byte>, seg: Segment)
    requires |b| >= OVERHEAD + |seg.data|
    requires |seg.data| < TWO31 && KnownCmd(seg.cmd)
    requires Decode32(b[0..4]) == seg.conv && b[4] == seg.cmd && b[5] == seg.frg
    requires Decode16(b[6..8]) == seg.wnd % 0x1_0000
    requires Decode32(b[8..12]) == seg.ts && Decode32(b[12..16]) == seg.sn
    requires Decode32(b[16..20]) == seg.una && Decode32(b[20..24]) == |seg.data|
    requires b[24..24 + |seg.data|] == seg.data
    ensures Parse(seg.conv, b) == Parsed(OnWire(seg), OVERHEAD + |seg.data|)
  {}

  lemma ParseEncode(seg: Segment, rest: seq<byte>)
    requires |seg.data| < TWO31 && KnownCmd(seg.cmd)
    ensures Parse(seg.conv, Encode(seg) + rest) == Parsed(OnWire(seg), |Encode(seg)|)
  {
    hide Parse, Decode16, Decode32;
    var b := Encode(seg) + rest;
    assert |b| >= OVERHEAD + |seg.data|;
    Fields(seg, rest, b);
    RoundTrip16(seg.wnd);
    Field32(b, 0, seg.conv);
    Field32(b, 8, seg.ts);
    Field32(b, 12, seg.sn);
    Field32(b, 16, seg.una);
    Field32(b, 20, |seg.data|);
    ParseFields(b, seg);
  }

  // ----- what is accepted, byte by byte

  /** The number in four octets, the least significant first. */
  lemma LittleEndian(b: seq<byte>)
    requires |b| == 4
    ensures Decode32(b) == (b[0] as int) + 256 * (b[1] as int) + 0x1_0000 * (b[2] as int) + 0x100_0000 * (b[3] as int)
    ensures Encode32(Decode32(b)) == b
  {
    var lo, hi := Decode16(b[..2]), Decode16(b[2..]);
    Halves16(b[..2]);
    Halves16(b[2..]);
    assert Decode32(b) == (lo as int) + 0x1_0000 * (hi as int);
    Low16(lo, hi);
    assert b == b[..2] + b[2..];
  }

  lemma Halves16(b: seq<byte>)
    requires |b| == 2
    ensures Encode16(Decode16(b)) == b
  {}

  lemma Low16(lo: u16, hi: u16)
    ensures Encode16((lo as int) + 0x1_0000 * (hi as int)) == Encode16(lo)
    ensures ((lo as int) + 0x1_0000 * (hi as int)) / 0x1_0000 == hi
  {
    var x, y := (lo as int) + 0x1_0000 * (hi as int), (lo as int) / 256 + 256 * (hi as int);
    Quotient(x, 0x1_0000, hi, lo);
    Quotient(x, 256, y, lo % 256);
    Quotient(y, 256, hi, lo / 256);
    Rest(x, 256, y, lo % 256);
    Rest(y, 256, hi, lo / 256);
  }

  lemma Rest(x: int, m: int, q: int, r: int)
    requires m > 0 && x == q * m + r && x / m == q
    ensures x % m == r
  {}

  /** Fewer octets than a header end the loop; a header is refused for its conversation first, then for its length,
      then for its command, and in no other case. */
  lemma ParseCodes(conv: u32, b: seq<byte>)
    ensures Parse(conv, b).Done? <==> |b| < OVERHEAD
    ensures |b| >= OVERHEAD ==>
      var other, len := Encode32(conv) != b[..4], LengthField(b);
      var long := len >= TWO31 || OVERHEAD + len > |b|;
      && (Parse(conv, b) == Bad(-1) <==> other)
      && (Parse(conv, b) == Bad(-2) <==> !other && long)
      && (Parse(conv, b) == Bad(-3) <==> !other && !long && b[4] !in {81, 82, 83, 84})
      && (Parse(conv, b).Parsed? <==> !other && !long && b[4] in {81, 82, 83, 84})
  {
    if |b| >= OVERHEAD {
      LittleEndian(b[..4]);
      RoundTrip32(conv);
      assert b[0..4] == b[..4];
      hide Decode32, Encode32;
    }
  }

  /** A segment that is accepted is the one that its octets encode: encoding undoes parsing. */
  lemma EncodeParse(conv: u32, b: seq<byte>)
    requires Parse(conv, b).Parsed?
    ensures Encode(Parse(conv, b).seg) == b[..Parse(conv, b).size]
  {
    hide Decode32, Encode32;
    var seg, size := Parse(conv, b).seg, Parse(conv, b).size;
    LittleEndian(b[0..4]);
    LittleEndian(b[8..12]);
    LittleEndian(b[12..16]);
    LittleEndian(b[16..20]);
    LittleEndian(b[20..24]);
    Halves16(b[6..8]);
    assert Wrap(|seg.data|) == LengthField(b);
    hide Parse, Encode16, Decode16;
    assert b[..24] == b[0..4] + [b[4], b[5]] + b[6..8] + b[8..12] + b[12..16] + b[16..20] + b[20..24];
    assert b[..size] == b[..24] + b[24..size];
  }

  // ----- datagrams

  /** The segments of a datagram and the code with which the loop ends. */
  datatype Unpacked = Unpacked(segs: seq<Segment>, rc: int)

  function Unpack(conv: u32, b: seq<byte>): (r: Unpacked)
    decreases |b|
  {
    match Parse(conv, b)
    case Done => Unpacked([], 0)
    case Bad(rc) => Unpacked([], rc)
    case Parsed(seg, size) =>
      var rest := Unpack(conv, b[size..]);
      Unpacked([seg] + rest.segs, rest.rc)
  }

  ghost predicate Sendable(conv: u32, seg: Segment) {
    seg.conv == conv && KnownCmd(seg.cmd) && |seg.data| < TWO31
  }

  ghost predicate AllSendable(conv: u32, segs: seq<Segment>) {
    forall i :: 0 <= i < |segs| ==> Sendable(conv, segs[i])
  }

  function EncodeAll(segs: seq<Segment>): (b: seq<byte>)
  {
    if segs == [] then [] else Encode(segs[0]) + EncodeAll(segs[1..])
  }

  function OnWireAll(segs: seq<Segment>): (r: seq<Segment>)
    ensures |r| == |segs|
    ensures forall i :: 0 <= i < |segs| ==> r[i] == OnWire(segs[i])
  {
    seq(|segs|, i requires 0 <= i < |segs| => OnWire(segs[i]))
  }

  /** A whole number of encoded segments decodes to exactly those segments. */
  lemma {:induction false} UnpackEncodeAll(conv: u32, segs: seq<Segment>)
    requires AllSendable(conv, segs)
    ensures Unpack(conv, EncodeAll(segs)) == Unpacked(OnWireAll(segs), 0)
  {
    if segs != [] {
      var b := EncodeAll(segs);
      ParseEncode(segs[0], EncodeAll(segs[1..]));
      assert b[|Encode(segs[0])|..] == EncodeAll(segs[1..]);
      UnpackEncodeAll(conv, segs[1..]);
      assert OnWireAll(segs) == [OnWire(segs[0])] + OnWireAll(segs[1..]);
    }
  }

  /** A datagram is the encoding of the segments found in it and a rest in which none is found: fewer octets than a
      header if it is accepted, and otherwise a header that is refused with the code returned. */
  lemma {:induction false} UnpackExact(conv: u32, b: seq<byte>)
    ensures var u := Unpack(conv, b);
      && |EncodeAll(u.segs)| <= |b| && EncodeAll(u.segs) == b[..|EncodeAll(u.segs)|]
      && Parse(conv, b[|EncodeAll(u.segs)|..]) == (if u.rc == 0 then Done else Bad(u.rc))
      && forall i :: 0 <= i < |u.segs| ==> u.segs[i].conv == conv && KnownCmd(u.segs[i].cmd) && u.segs[i].wnd < 0x1_0000
    decreases |b|
  {
    hide Parse, Encode;
    match Parse(conv, b)
    case Done => assert b[0..] == b;
    case Bad(rc) =>
      ParseCodes(conv, b);
      assert b[0..] == b;
    case Parsed(seg, size) =>
      EncodeParse(conv, b);
      UnpackExact(conv, b[size..]);
      var n := |EncodeAll(Unpack(conv, b[size..]).segs)|;
      assert b[..size + n] == b[..size] + b[size..][..n];
      assert b[size + n..] == b[size..][n..];
  }

  lemma {:induction false} EncodeAllAppend(segs: seq<Segment>, seg: Segment)
    ensures EncodeAll(segs + [seg]) == EncodeAll(segs) + Encode(seg)
  {
    if segs == [] {
      assert EncodeAll([seg]) == Encode(seg) + EncodeAll([]);
    } else {
      assert (segs + [seg])[1..] == segs[1..] + [seg];
      EncodeAllAppend(segs[1..], seg);
    }
  }
}
