/** Round-trip estimation and retransmission timers. */
module KcpTiming {
  import opened Serial
  import opened KcpWire

  const RTO_NDL: int := 30
  const RTO_MIN: int := 100
  const RTO_MAX: int := 60000

  // ----- ikcp_update_ack

  /** `rx_srtt`, `rx_rttval`, `rx_rto` and `rx_minrto`. */
  datatype Rtt = Rtt(srtt: i32, rttval: i32, rto: u32, minrto: u32)

  /** Arithmetic of the C type `int`. */
  function I32(x: int): i32 {
    Signed(Wrap(x))
  }

  function Abs(x: int): int {
    if x < 0 then -x else x
  }

  function Bound(lower: int, middle: int, upper: int): int {
    Min(Max(lower, middle), upper)
  }

  function NextSrtt(r: Rtt, sample: i32): i32 {
    if r.srtt == 0 then sample else Max(1, TruncDiv(I32(I32(7 * r.srtt) + sample), 8))
  }

  function NextRttval(r: Rtt, sample: i32): i32 {
    if r.srtt == 0 then TruncDiv(sample, 2)
    else I32(TruncDiv(I32(3 * r.rttval) + Abs(I32(sample - r.srtt)), 4))
  }

  function NextRto(srtt: i32, rttval: i32, minrto: u32, interval: u32): u32 {
    Bound(minrto, Add32(Wrap(srtt), Max(interval, Wrap(I32(4 * rttval)))), RTO_MAX)
  }

  function UpdateAck(r: Rtt, sample: i32, interval: u32): Rtt {
    var srtt, rttval := NextSrtt(r, sample), NextRttval(r, sample);
    Rtt(srtt, rttval, NextRto(srtt, rttval, r.minrto, interval), r.minrto)
  }

  /** The largest sample for which no intermediate result overflows. */
  const MAX_SAMPLE: int := 0x1000_0000

  ghost predicate Estimates(r: Rtt) {
    0 <= r.srtt < MAX_SAMPLE && 0 <= r.rttval < MAX_SAMPLE
  }

  ghost predicate Bounded(r: Rtt) {
    RTO_NDL <= r.minrto <= r.rto <= RTO_MAX
  }

  /** The timeout stays in its bounds whatever the peer's time stamps are. */
  lemma RtoBounded(r: Rtt, sample: i32, interval: u32)
    requires Bounded(r)
    ensures Bounded(UpdateAck(r, sample, interval))
  {}

  lemma Narrow(x: int)
    requires -TWO31 <= x < TWO31
    ensures I32(x) == x
  {}

  lemma SrttExact(r: Rtt, sample: i32)
    requires Estimates(r) && 0 <= sample < MAX_SAMPLE && r.srtt != 0
    ensures NextSrtt(r, sample) == Max(1, (7 * r.srtt + sample) / 8)
    ensures Min(r.srtt, Max(1, sample)) <= NextSrtt(r, sample) <= Max(r.srtt, sample)
  {
    Narrow(7 * r.srtt);
    Narrow(7 * r.srtt + sample);
  }

  lemma RttvalExact(r: Rtt, sample: i32)
    requires Estimates(r) && 0 <= sample < MAX_SAMPLE && r.srtt != 0
    ensures NextRttval(r, sample) == (3 * r.rttval + Abs(sample - r.srtt)) / 4
    ensures 0 <= NextRttval(r, sample) < MAX_SAMPLE
  {
    Narrow(sample - r.srtt);
    Narrow(3 * r.rttval);
    Narrow((3 * r.rttval + Abs(sample - r.srtt)) / 4);
  }

  lemma RtoExact(srtt: i32, rttval: i32, minrto: u32, interval: u32)
    requires 0 <= srtt < MAX_SAMPLE && 0 <= rttval < MAX_SAMPLE && interval < MAX_SAMPLE
    ensures NextRto(srtt, rttval, minrto, interval) == Bound(minrto, srtt + Max(interval, 4 * rttval), RTO_MAX)
  {
    Narrow(4 * rttval);
  }

  /** For samples below 2^28 the estimators are those of section 2 of RFC 6298
      with integer division: no intermediate result overflows, the smoothed
      time stays between the old one and the sample, and the bounds persist. */
  lemma UpdateAckExact(r: Rtt, sample: i32, interval: u32)
    requires Estimates(r) && 0 <= sample < MAX_SAMPLE && interval < MAX_SAMPLE
    ensures var r' := UpdateAck(r, sample, interval);
      && Estimates(r')
      && (r.srtt == 0 ==> r'.srtt == sample && r'.rttval == sample / 2)
      && (r.srtt != 0 ==>
            && r'.srtt == Max(1, (7 * r.srtt + sample) / 8)
            && r'.rttval == (3 * r.rttval + Abs(sample - r.srtt)) / 4
            && Min(r.srtt, Max(1, sample)) <= r'.srtt <= Max(r.srtt, sample))
      && r'.rto == Bound(r.minrto, r'.srtt + Max(interval, 4 * r'.rttval), RTO_MAX)
  {
    if r.srtt != 0 {
      SrttExact(r, sample);
      RttvalExact(r, sample);
    }
    RtoExact(NextSrtt(r, sample), NextRttval(r, sample), r.minrto, interval);
  }

  function Samples(r: Rtt, samples: seq<i32>, interval: u32): Rtt {
    if samples == [] then r
    else UpdateAck(Samples(r, samples[..|samples| - 1], interval), samples[|samples| - 1], interval)
  }

  /** No run of samples below 2^28 ever overflows the estimators. */
  lemma {:induction false} SamplesStay(r: Rtt, samples: seq<i32>, interval: u32)
    requires Estimates(r) && Bounded(r) && interval < MAX_SAMPLE
    requires forall i :: 0 <= i < |samples| ==> 0 <= samples[i] < MAX_SAMPLE
    ensures Estimates(Samples(r, samples, interval)) && Bounded(Samples(r, samples, interval))
  {
    if samples != [] {
      var n := |samples| - 1;
      SamplesStay(r, samples[..n], interval);
      UpdateAckExact(Samples(r, samples[..n], interval), samples[n], interval);
      RtoBounded(Samples(r, samples[..n], interval), samples[n], interval);
    }
  }

  // ----- the per-segment part of ikcp_flush

  /** Why a segment is sent, if it is. */
  datatype Cause = Keep | First | Timeout | Fast

  /** What the pass over `snd_buf` reads of the control block. */
  datatype Pass = Pass(current: u32, rto: u32, resent: u32, fastlimit: int, nodelay: u32, wnd: u32, una: u32)

  predicate Due(seg: Segment, current: u32) {
    Diff32(current, seg.resendts) >= 0
  }

  function CauseOf(seg: Segment, p: Pass): Cause {
    if seg.xmit == 0 then First
    else if Due(seg, p.current) then Timeout
    else if seg.fastack >= p.resent && (Signed(seg.xmit) <= p.fastlimit || p.fastlimit <= 0) then Fast
    else Keep
  }

  function RtoMin(p: Pass): u32 {
    if p.nodelay == 0 then p.rto / 8 else 0
  }

  /** The timeout after a timeout. */
  function Backoff(rto: u32, p: Pass): u32 {
    if p.nodelay == 0 then Add32(rto, Max(rto, p.rto))
    else
      var step := if p.nodelay < 2 then Signed(rto) else Signed(p.rto);
      Add32(rto, Wrap(TruncDiv(step, 2)))
  }

  function Retime(seg: Segment, p: Pass): Segment {
    match CauseOf(seg, p)
    case Keep => seg
    case First =>
      seg.(xmit := Add32(seg.xmit, 1), rto := p.rto, resendts := Add32(Add32(p.current, p.rto), RtoMin(p)))
    case Timeout =>
      var rto := Backoff(seg.rto, p);
      seg.(xmit := Add32(seg.xmit, 1), rto := rto, resendts := Add32(p.current, rto))
    case Fast =>
      seg.(xmit := Add32(seg.xmit, 1), fastack := 0, resendts := Add32(p.current, seg.rto))
  }

  function Transmit(seg: Segment, p: Pass): Segment {
    if CauseOf(seg, p).Keep? then seg
    else Retime(seg, p).(ts := p.current, wnd := p.wnd, una := p.una)
  }

  /** A pass changes timers and header fields only. */
  lemma TransmitFields(seg: Segment, p: Pass)
    ensures var r := Transmit(seg, p);
      r.conv == seg.conv && r.cmd == seg.cmd && r.frg == seg.frg && r.sn == seg.sn && r.data == seg.data
  {}

  /** A timer that has run out. */
  predicate Expired(seg: Segment, current: u32) {
    seg.xmit > 0 && Diff32(current, seg.resendts) >= 0
  }

  /** Acknowledgements have skipped the segment often enough for a resend before its time: `threshold` of them,
      and not more than `fastlimit` sendings if there is such a limit. */
  predicate Skipped(seg: Segment, current: u32, threshold: u32, fastlimit: int) {
    && seg.xmit > 0 && Diff32(current, seg.resendts) < 0
    && seg.fastack >= threshold && (fastlimit <= 0 || Signed(seg.xmit) <= fastlimit)
  }

  /** What a timer that has run out grows by. */
  function Growth(rto: u32, rxRto: u32, nodelay: u32): nat {
    if nodelay == 0 then Max(rto, rxRto) else if nodelay == 1 then rto / 2 else rxRto / 2
  }

  /** The segment `r` has been sent at `current` again, or for the first time. */
  predicate Stamped(seg: Segment, r: Segment, p: Pass) {
    r.xmit == Add32(seg.xmit, 1) && r.ts == p.current && r.wnd == p.wnd && r.una == p.una
  }

  /** What the pass does with a segment, and the exact time it then waits. */
  lemma TransmitTimes(seg: Segment, p: Pass)
    requires SaneRto(p)
    ensures var r := Transmit(seg, p);
      var wait := Sub32(r.resendts, p.current);
      && (seg.xmit == 0 ==>
            && Stamped(seg, r, p) && r.rto == p.rto && r.fastack == seg.fastack
            && wait == p.rto + if p.nodelay == 0 then p.rto / 8 else 0)
      && (Expired(seg, p.current) ==>
            && Stamped(seg, r, p) && r.fastack == seg.fastack && wait == r.rto
            && (p.nodelay != 1 || seg.rto < TWO31 ==> r.rto == Wrap(seg.rto + Growth(seg.rto, p.rto, p.nodelay))))
      && (Skipped(seg, p.current, p.resent, p.fastlimit) ==>
            Stamped(seg, r, p) && r.rto == seg.rto && r.fastack == 0 && wait == seg.rto)
      && (seg.xmit > 0 && !Expired(seg, p.current) && !Skipped(seg, p.current, p.resent, p.fastlimit) ==> r == seg)
  {
    if seg.xmit == 0 {
      AddBack(p.current, p.rto + RtoMin(p));
      assert Add32(Add32(p.current, p.rto), RtoMin(p)) == Add32(p.current, p.rto + RtoMin(p));
    } else {
      AddBack(p.current, Backoff(seg.rto, p));
      AddBack(p.current, seg.rto);
      if p.nodelay != 1 || seg.rto < TWO31 {
        BackoffExact(seg.rto, p);
      }
    }
  }

  lemma AddBack(a: u32, d: u32)
    ensures Sub32(Add32(a, d), a) == d
  {}

  lemma BackoffExact(rto: u32, p: Pass)
    requires SaneRto(p) && (p.nodelay != 1 || rto < TWO31)
    ensures Backoff(rto, p) == Wrap(rto + Growth(rto, p.rto, p.nodelay))
  {}

  /** The time stamp lies in the future in the eyes of `ikcp_check`. */
  predicate InFuture(ts: u32, current: u32) {
    Diff32(ts, current) > 0
  }

  lemma Future(current: u32, d: u32)
    ensures InFuture(Add32(current, d), current) <==> 0 < d < TWO31
  {}

  ghost predicate SaneRto(p: Pass) {
    RTO_NDL <= p.rto <= RTO_MAX
  }

  lemma BackoffGrows(rto: u32, p: Pass)
    requires SaneRto(p) && 0 < rto < 0x4000_0000
    ensures rto <= Backoff(rto, p) <= 2 * Max(rto, p.rto)
  {}

  /** After the pass a segment waits for a time in the future if and only if
      the timer that the pass set, or left alone, is below 2^31. */
  lemma WaitsWhen(seg: Segment, p: Pass)
    requires SaneRto(p)
    ensures InFuture(Transmit(seg, p).resendts, p.current) <==>
      match CauseOf(seg, p)
      case First => true
      case Timeout => 0 < Backoff(seg.rto, p) < TWO31
      case Fast => 0 < seg.rto < TWO31
      case Keep => Sub32(seg.resendts, p.current) != TWO31
  {
    Future(p.current, Backoff(seg.rto, p));
    Future(p.current, seg.rto);
    Future(p.current, p.rto + RtoMin(p));
    assert Add32(Add32(p.current, p.rto), RtoMin(p)) == Add32(p.current, p.rto + RtoMin(p));
  }

  /** Without `nodelay` the doubled timer leaves the usable range exactly when
      it had reached 2^30, and comes back when the doubling has wrapped. */
  lemma DoublingWaits(seg: Segment, p: Pass)
    requires SaneRto(p) && p.nodelay == 0 && CauseOf(seg, p).Timeout?
    ensures InFuture(Transmit(seg, p).resendts, p.current) <==>
      seg.rto < 0x4000_0000 || 0x8000_0000 < seg.rto < 0xC000_0000
  {
    WaitsWhen(seg, p);
  }

  /** Whatever the pass did to a segment, a timer below 2^31 means a resend time in the future. */
  lemma TransmitWaits(seg: Segment, p: Pass)
    requires SaneRto(p)
    ensures 0 < Transmit(seg, p).rto < TWO31 && Sub32(seg.resendts, p.current) != TWO31 ==>
      InFuture(Transmit(seg, p).resendts, p.current)
  {
    WaitsWhen(seg, p);
  }

  function Pow2(n: nat): nat {
    if n == 0 then 1 else 2 * Pow2(n - 1)
  }

  /** The timer of a segment that has been sent `xmit` times. */
  ghost predicate TimerBound(seg: Segment) {
    1 <= seg.xmit <= 15 ==> 0 < seg.rto <= RTO_MAX * Pow2(seg.xmit - 1)
  }

  lemma {:induction false} Pow2Mono(m: nat, n: nat)
    requires m <= n
    ensures Pow2(m) <= Pow2(n)
    decreases n
  {
    if m < n {
      Pow2Mono(m, n - 1);
    }
  }

  lemma Pow2At14()
    ensures Pow2(14) == 0x4000
  {
    assert Pow2(7) == 128;
  }

  /** Every pass keeps the bound on the timers; and until a segment has been
      sent 15 times, it never leaves the pass without a future resend time. */
  lemma TransmitKeepsTimers(seg: Segment, p: Pass)
    requires SaneRto(p) && TimerBound(seg)
    ensures var seg' := Transmit(seg, p);
      && TimerBound(seg') && (seg.xmit < TWO32 - 1 ==> seg'.xmit >= 1)
      && (1 <= seg'.xmit <= 15 ==> 0 < seg'.rto < TWO31)
      && (1 <= seg'.xmit <= 15 && Sub32(seg.resendts, p.current) != TWO31 ==> InFuture(seg'.resendts, p.current))
  {
    WaitsWhen(seg, p);
    Pow2At14();
    if 1 <= seg.xmit <= 15 {
      Pow2Mono(seg.xmit - 1, 14);
      Pow2Mono(0, seg.xmit - 1);
      BackoffGrows(seg.rto, p);
    }
  }
}
