/** Round-trip samples: which acknowledgements `ikcp_input` takes as samples, and what the estimates are
    over whole runs. */
module KcpSampling {
  import opened Serial
  import opened KcpWire
  import S = KcpSender
  import opened KcpTiming
  import opened KcpControl
  import opened KcpInvariant

  /** The estimates after a sample `x`, as section 2 of RFC 6298 has them, in integers. */
  ghost predicate Estimated(r: Rtt, r': Rtt, x: int, interval: u32) {
    && r'.minrto == r.minrto
    && (r.srtt == 0 ==> r'.srtt == x && r'.rttval == x / 2)
    && (r.srtt != 0 ==>
          && r'.srtt == Max(1, (7 * r.srtt + x) / 8)
          && r'.rttval == (3 * r.rttval + Abs(x - r.srtt)) / 4)
    && r'.rto == Min(Max(r.minrto, r'.srtt + Max(interval, 4 * r'.rttval)), 60000)
  }

  /** An acknowledgement that was sent back is a sample: the time since the stamp that it repeats.  One
      whose stamp lies in the future is not, and no other segment is. */
  lemma SegmentSamples(k: Kcb, seg: Segment)
    requires Estimates(k.rtt) && k.cfg.interval < MAX_SAMPLE
    ensures var x, k' := Diff32(k.current, seg.ts), OnSegment(k, seg);
      && (seg.cmd == CMD_ACK && 0 <= x < MAX_SAMPLE ==> Estimated(k.rtt, k'.rtt, x, k.cfg.interval) && Estimates(k'.rtt))
      && (seg.cmd != CMD_ACK || x < 0 ==> k'.rtt == k.rtt)
  {
    var x := Diff32(k.current, seg.ts);
    if 0 <= x < MAX_SAMPLE {
      UpdateAckExact(k.rtt, x, k.cfg.interval);
    }
    hide UpdateAck, S.ParseUna, S.ParseAck, S.Shrink;
  }

  /** The samples in a list of segments that arrives at the time `current`. */
  function SamplesIn(current: u32, segs: seq<Segment>): seq<i32>
    decreases |segs|
  {
    if segs == [] then []
    else
      var x := Diff32(current, segs[0].ts);
      (if segs[0].cmd == CMD_ACK && x >= 0 then [x] else []) + SamplesIn(current, segs[1..])
  }

  lemma {:induction false} SamplesConcat(r: Rtt, xs: seq<i32>, ys: seq<i32>, interval: u32)
    ensures Samples(r, xs + ys, interval) == Samples(Samples(r, xs, interval), ys, interval)
    decreases |ys|
  {
    hide UpdateAck;
    if ys == [] {
      assert xs + ys == xs;
    } else {
      var n := |ys| - 1;
      assert (xs + ys)[..|xs| + n] == xs + ys[..n];
      SamplesConcat(r, xs, ys[..n], interval);
    }
  }

  lemma SampleOne(r: Rtt, x: i32, interval: u32)
    ensures Samples(r, [x], interval) == UpdateAck(r, x, interval) && Samples(r, [], interval) == r
  {
    hide UpdateAck;
    assert [x][..0] == [];
  }

  lemma {:induction false} SegmentsSampled(k: Kcb, segs: seq<Segment>)
    ensures var k' := OnSegments(k, segs);
      k'.rtt == Samples(k.rtt, SamplesIn(k.current, segs), k.cfg.interval) && k'.current == k.current
    decreases |segs|
  {
    hide UpdateAck, S.ParseUna, S.ParseAck, S.Shrink;
    if segs != [] {
      var k1 := OnSegment(k, segs[0]);
      var x := Diff32(k.current, segs[0].ts);
      SampleOne(k.rtt, x, k.cfg.interval);
      var first := if segs[0].cmd == CMD_ACK && x >= 0 then [x] else [];
      SamplesConcat(k.rtt, first, SamplesIn(k.current, segs[1..]), k.cfg.interval);
      SegmentsSampled(k1, segs[1..]);
    }
  }

  /** The samples that a call takes. */
  function CallSamples(k: Kcb, call: Call): seq<i32> {
    if call.CallInput? && Signed(Wrap(|call.data|)) >= OVERHEAD then
      SamplesIn(k.current, Unpack(k.cfg.conv, call.data).segs)
    else []
  }

  /** One call: the acknowledgements of a datagram, up to the first segment that is refused, are samples; the
      other calls leave the estimates alone. */
  lemma ApplySampled(k: Kcb, call: Call)
    requires k.cfg.mss > 0
    ensures Apply(k, call).rtt == Samples(k.rtt, CallSamples(k, call), k.cfg.interval)
  {
    SampleOne(k.rtt, 0, k.cfg.interval);
    if call.CallInput? {
      SegmentsSampled(k, Unpack(k.cfg.conv, call.data).segs);
      hide OnSegments, Unpack, SamplesIn, Samples, MaxAcks;
    } else {
      hide AdmitAll, FlushTally, NextProbe, Samples;
    }
  }

  /** The samples of a run, in order. */
  function RunSamples(k: Kcb, cs: seq<Call>): seq<i32>
    requires k.cfg.mss > 0
  {
    if cs == [] then []
    else RunSamples(k, cs[..|cs| - 1]) + CallSamples(ApplyAll(k, cs[..|cs| - 1]), cs[|cs| - 1])
  }

  /** In every run the estimates are those of the samples received so far, from the initial ones on. */
  lemma {:induction false} EstimatesRun(k: Kcb, cs: seq<Call>)
    requires k.cfg.mss > 0
    ensures ApplyAll(k, cs).rtt == Samples(k.rtt, RunSamples(k, cs), k.cfg.interval)
  {
    hide Apply, CallSamples, Samples;
    if cs == [] {
      SampleOne(k.rtt, 0, k.cfg.interval);
    } else {
      var n := |cs| - 1;
      EstimatesRun(k, cs[..n]);
      var k1 := ApplyAll(k, cs[..n]);
      ApplySampled(k1, cs[n]);
      SamplesConcat(k.rtt, RunSamples(k, cs[..n]), CallSamples(k1, cs[n]), k.cfg.interval);
    }
  }

  /** In every run of a new endpoint with samples below 2^28, each acknowledgement changes the estimates as
      RFC 6298 has it, and the timeout is within its bounds. */
  lemma EstimatorRun(c: Config, rcvWnd: u32, cs: seq<Call>)
    requires ValidConfig(c)
    requires forall i :: 0 <= i < |RunSamples(Create(c, rcvWnd), cs)| ==> 0 <= RunSamples(Create(c, rcvWnd), cs)[i] < MAX_SAMPLE
    ensures var k := ApplyAll(Create(c, rcvWnd), cs);
      && k.rtt == Samples(Rtt(0, 0, 200, if c.nodelay == 0 then 100 else 30), RunSamples(Create(c, rcvWnd), cs), c.interval)
      && Estimates(k.rtt) && Bounded(k.rtt)
  {
    hide ApplyAll, Samples, RunSamples;
    var k := Create(c, rcvWnd);
    EstimatesRun(k, cs);
    SamplesStay(k.rtt, RunSamples(k, cs), c.interval);
  }

  /** The estimates of a list of samples, one step of the recurrence at a time. */
  lemma SamplesStep(r: Rtt, samples: seq<i32>, x: i32, interval: u32)
    requires Estimates(r) && Bounded(r) && interval < MAX_SAMPLE && 0 <= x < MAX_SAMPLE
    requires forall i :: 0 <= i < |samples| ==> 0 <= samples[i] < MAX_SAMPLE
    ensures Samples(r, [], interval) == r
    ensures Estimated(Samples(r, samples, interval), Samples(r, samples + [x], interval), x, interval)
  {
    hide Samples, NextSrtt, NextRttval, NextRto;
    SamplesStay(r, samples, interval);
    SamplesConcat(r, samples, [x], interval);
    SampleOne(Samples(r, samples, interval), x, interval);
    SampleOne(r, x, interval);
    UpdateAckExact(Samples(r, samples, interval), x, interval);
  }
}
