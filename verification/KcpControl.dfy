/** The KCP control block as a value, and what each call makes of it. */
module KcpControl {
  import opened Serial
  import opened KcpWire
  import R = KcpReceiver
  import opened KcpMessages
  import S = KcpSender
  import opened KcpTiming
  import opened KcpCongestion
  import opened KcpPacking

  const PROBE_INIT: u32 := 7000
  const PROBE_LIMIT: u32 := 120000
  const DEAD: u32 := 0xFFFF_FFFF

  datatype Ack = Ack(sn: u32, ts: u32)

  /** The window probe of a sender whose peer has announced a zero window. */
  datatype Probe = Probe(askSend: bool, askTell: bool, ts: u32, wait: u32)

  /** What `ikcp_create`, `ikcp_setmtu`, `ikcp_wndsize` and `ikcp_nodelay` fix. */
  datatype Config = Config(
    conv: u32, mtu: u32, mss: u32, sndWnd: u32, interval: u32,
    nodelay: u32, fastresend: i32, fastlimit: i32, nocwnd: bool, deadLink: u32)

  /** `IKCPCB`. */
  datatype Kcb = Kcb(
    cfg: Config, snd: S.Snd, rcv: R.Rcv, rtt: Rtt, cc: Cc, acks: seq<Ack>, probe: Probe,
    rmtWnd: u32, current: u32, tsFlush: u32, updated: bool, state: u32, xmit: u32)

  ghost predicate ValidConfig(c: Config) {
    OVERHEAD < c.mtu < TWO31 && c.mss == c.mtu - OVERHEAD && 10 <= c.interval <= 5000
  }

  /** `ikcp_create`, followed by the configuration calls. */
  function Create(c: Config, rcvWnd: u32): Kcb {
    Kcb(c, S.Snd(0, 0, [], [], 0, 0), R.Rcv(0, Max(rcvWnd, R.WND_RCV), [], [], 0, 0),
        Rtt(0, 0, 200, if c.nodelay == 0 then RTO_MIN else RTO_NDL), Cc(0, 0, THRESH_MIN), [],
        Probe(false, false, 0, 0), R.WND_RCV, 0, c.interval, false, 0, 0)
  }

  // ----- ikcp_input

  function OnUna(k: Kcb, seg: Segment): Kcb {
    k.(rmtWnd := seg.wnd, snd := S.Shrink(S.ParseUna(k.snd, seg.una)))
  }

  function OnAck(k: Kcb, seg: Segment): Kcb {
    var sample := Diff32(k.current, seg.ts);
    var rtt := if sample >= 0 then UpdateAck(k.rtt, sample, k.cfg.interval) else k.rtt;
    k.(rtt := rtt, snd := S.Shrink(S.ParseAck(k.snd, seg.sn)))
  }

  function OnPush(k: Kcb, seg: Segment): Kcb {
    if Diff32(seg.sn, Add32(k.rcv.nxt, k.rcv.wnd)) < 0 then
      k.(acks := k.acks + [Ack(seg.sn, seg.ts)],
         rcv := if Diff32(seg.sn, k.rcv.nxt) >= 0 then R.ParseData(k.rcv, seg) else k.rcv)
    else k
  }

  /** One turn of the loop of `ikcp_input`. */
  function OnSegment(k: Kcb, seg: Segment): Kcb {
    var k1 := OnUna(k, seg);
    if seg.cmd == CMD_ACK then OnAck(k1, seg)
    else if seg.cmd == CMD_PUSH then OnPush(k1, seg)
    else if seg.cmd == CMD_WASK then k1.(probe := k1.probe.(askTell := true))
    else k1
  }

  function OnSegments(k: Kcb, segs: seq<Segment>): Kcb
    decreases |segs|
  {
    if segs == [] then k else OnSegments(OnSegment(k, segs[0]), segs[1..])
  }

  datatype MaxAck = None | Some(sn: u32)

  /** `flag` and `maxack` of `ikcp_input`. */
  function NextMaxAck(m: MaxAck, seg: Segment): MaxAck {
    if seg.cmd != CMD_ACK then m
    else if m.None? || Diff32(seg.sn, m.sn) > 0 then Some(seg.sn)
    else m
  }

  function MaxAcks(m: MaxAck, segs: seq<Segment>): MaxAck
    decreases |segs|
  {
    if segs == [] then m else MaxAcks(NextMaxAck(m, segs[0]), segs[1..])
  }

  /** What follows the loop of `ikcp_input`. */
  function Finish(k: Kcb, m: MaxAck, prevUna: u32): Kcb
    requires k.cfg.mss > 0
  {
    var k1 := if m.None? then k else k.(snd := S.ParseFastack(k.snd, m.sn));
    if Diff32(k1.snd.una, prevUna) > 0 then k1.(cc := OnAdvance(k1.cc, k1.rmtWnd, k1.cfg.mss)) else k1
  }

  lemma {:induction false} OnSegmentsKeepsConfig(k: Kcb, segs: seq<Segment>)
    ensures OnSegments(k, segs).cfg == k.cfg
    decreases |segs|
  {
    if segs != [] {
      OnSegmentsKeepsConfig(OnSegment(k, segs[0]), segs[1..]);
    }
  }

  function Input(k: Kcb, data: Datagram): (r: (Kcb, int))
    requires k.cfg.mss > 0
  {
    if Signed(Wrap(|data|)) < OVERHEAD then (k, -1)
    else
      var u := Unpack(k.cfg.conv, data);
      var k1 := OnSegments(k, u.segs);
      OnSegmentsKeepsConfig(k, u.segs);
      if u.rc != 0 then (k1, u.rc) else (Finish(k1, MaxAcks(None, u.segs), k.snd.una), 0)
  }

  // ----- ikcp_flush

  function WndUnused(r: R.Rcv): u32 {
    if r.nque < r.wnd then r.wnd - r.nque else 0
  }

  function Header(k: Kcb, cmd: byte, ack: Ack): Segment {
    Segment(k.cfg.conv, cmd, 0, WndUnused(k.rcv), ack.ts, ack.sn, k.rcv.nxt, [], 0, 0, 0, 0)
  }

  function AckSegments(k: Kcb): (r: seq<Segment>)
    ensures |r| == |k.acks|
    ensures forall i :: 0 <= i < |r| ==> r[i] == Header(k, CMD_ACK, k.acks[i])
  {
    seq(|k.acks|, i requires 0 <= i < |k.acks| => Header(k, CMD_ACK, k.acks[i]))
  }

  function NextProbe(k: Kcb): Probe {
    var p := k.probe;
    if k.rmtWnd != 0 then p.(ts := 0, wait := 0)
    else if p.wait == 0 then p.(ts := Add32(k.current, PROBE_INIT), wait := PROBE_INIT)
    else if Diff32(k.current, p.ts) >= 0 then
      var w0 := Max(p.wait, PROBE_INIT);
      var w := Min(Add32(w0, w0 / 2), PROBE_LIMIT);
      p.(askSend := true, ts := Add32(k.current, w), wait := w)
    else p
  }

  /** The probes reuse the header of the acknowledgements, so they carry the
      number and the time stamp of the last one. */
  function LastAck(k: Kcb): Ack {
    if k.acks == [] then Ack(0, 0) else k.acks[|k.acks| - 1]
  }

  function ProbeSegments(k: Kcb): seq<Segment> {
    var p := NextProbe(k);
    (if p.askSend then [Header(k, CMD_WASK, LastAck(k))] else [])
    + (if p.askTell then [Header(k, CMD_WINS, LastAck(k))] else [])
  }

  /** The window that limits this flush. */
  function UsedWindow(k: Kcb): u32 {
    var w := Min(k.cfg.sndWnd, k.rmtWnd);
    if k.cfg.nocwnd then w else Min(k.cc.cwnd, w)
  }

  function StampOf(k: Kcb): S.Stamp {
    S.Stamp(k.cfg.conv, WndUnused(k.rcv), k.rcv.nxt, k.current, k.rtt.rto)
  }

  function PassOf(k: Kcb): Pass {
    Pass(k.current, k.rtt.rto, Resent(k.cfg.fastresend), k.cfg.fastlimit, k.cfg.nodelay, WndUnused(k.rcv), k.rcv.nxt)
  }

  function AdmitAll(k: Kcb): S.Snd {
    S.Admit(k.snd, UsedWindow(k), StampOf(k))
  }

  function TransmitAll(buf: seq<Segment>, p: Pass): (r: seq<Segment>)
    ensures |r| == |buf|
    ensures forall i :: 0 <= i < |r| ==> r[i] == Transmit(buf[i], p)
  {
    seq(|buf|, i requires 0 <= i < |buf| => Transmit(buf[i], p))
  }

  /** What the pass over `snd_buf` accumulates. */
  datatype Tally = Tally(sent: seq<Segment>, lost: bool, fast: bool, timeouts: u32, dead: bool)

  function Count(t: Tally, seg: Segment, p: Pass, deadLink: u32): Tally {
    var c := CauseOf(seg, p);
    if c.Keep? then t
    else
      var seg' := Transmit(seg, p);
      Tally(t.sent + [seg'], t.lost || c.Timeout?, t.fast || c.Fast?,
            if c.Timeout? then Add32(t.timeouts, 1) else t.timeouts, t.dead || seg'.xmit >= deadLink)
  }

  function CountAll(buf: seq<Segment>, p: Pass, deadLink: u32): Tally {
    if buf == [] then Tally([], false, false, 0, false)
    else Count(CountAll(buf[..|buf| - 1], p, deadLink), buf[|buf| - 1], p, deadLink)
  }

  function FlushTally(k: Kcb): Tally {
    CountAll(AdmitAll(k).buf, PassOf(k), k.cfg.deadLink)
  }

  /** All segments of a flush, in the order in which they are packed. */
  function FlushSegments(k: Kcb): seq<Segment> {
    AckSegments(k) + ProbeSegments(k) + FlushTally(k).sent
  }

  function FlushState(k: Kcb): Kcb {
    var snd := AdmitAll(k);
    var t := FlushTally(k);
    k.(acks := [], probe := NextProbe(k).(askSend := false, askTell := false),
       snd := snd.(buf := TransmitAll(snd.buf, PassOf(k))),
       state := if t.dead then DEAD else k.state, xmit := Add32(k.xmit, t.timeouts),
       cc := OnFlush(k.cc, t.fast, t.lost, Sub32(snd.nxt, snd.una), UsedWindow(k), Resent(k.cfg.fastresend), k.cfg.mss))
  }

  function Flush(k: Kcb): (r: (Kcb, seq<Datagram>)) {
    if !k.updated then (k, []) else (FlushState(k), Pack(k.cfg.mtu, FlushSegments(k)))
  }

  // ----- ikcp_update and ikcp_check

  function Tick(k: Kcb, current: u32): Kcb {
    var tsFlush0 := if k.updated then k.tsFlush else current;
    var slap := Diff32(current, tsFlush0);
    var tsFlush1 := if slap >= 10000 || slap < 0 then current else tsFlush0;
    var tsFlush2 := Add32(tsFlush1, k.cfg.interval);
    k.(current := current, updated := true,
       tsFlush := if Diff32(current, tsFlush2) >= 0 then Add32(current, k.cfg.interval) else tsFlush2)
  }

  function Update(k: Kcb, current: u32): (r: (Kcb, seq<Datagram>)) {
    Flush(Tick(k, current))
  }

  /** After every update the next flush is due in at most one interval, and not now. */
  lemma TickSchedules(k: Kcb, current: u32)
    requires ValidConfig(k.cfg)
    ensures 0 < Diff32(Tick(k, current).tsFlush, current) <= k.cfg.interval
  {}

  /** An update that comes less than an interval after the time set for it keeps the rhythm; the first one, an
      early one and one that is later than that start it anew. */
  lemma TickExact(k: Kcb, current: u32)
    requires ValidConfig(k.cfg)
    ensures var k', late := Tick(k, current), Diff32(current, k.tsFlush);
      && k' == k.(current := current, updated := true, tsFlush := k'.tsFlush)
      && k'.tsFlush == Wrap((if k.updated && 0 <= late < k.cfg.interval then k.tsFlush else current) + k.cfg.interval)
  {}

  function CheckFlush(k: Kcb, current: u32): u32 {
    var d := Diff32(current, k.tsFlush);
    if d >= 10000 || d < -10000 then current else k.tsFlush
  }

  /** The least of `most` and the times until the segments must be resent. */
  function Earliest(buf: seq<Segment>, current: u32, most: int): int {
    if buf == [] then most
    else Min(Earliest(buf[..|buf| - 1], current, most), Diff32(buf[|buf| - 1].resendts, current))
  }

  function Check(k: Kcb, current: u32): u32 {
    if !k.updated || Diff32(current, CheckFlush(k, current)) >= 0 then current
    else if Earliest(k.snd.buf, current, 0x7FFF_FFFF) <= 0 then current
    else
      var d := Min(Earliest(k.snd.buf, current, 0x7FFF_FFFF), Diff32(CheckFlush(k, current), current));
      Add32(current, Min(d, k.cfg.interval))
  }

  // ----- ikcp_send and ikcp_recv

  function SendMessage(k: Kcb, msg: Message): (r: (Kcb, int))
    requires k.cfg.mss > 0
  {
    var r := S.Send(k.snd, msg, k.cfg.mss);
    (k.(snd := r.0), r.1)
  }

  function ReceiveMessage(k: Kcb, len: int): (r: (Kcb, int, Message)) {
    var r := Recv(k.rcv, len);
    (k.(rcv := r.r, probe := if r.tell then k.probe.(askTell := true) else k.probe), r.rc, r.data)
  }
}
