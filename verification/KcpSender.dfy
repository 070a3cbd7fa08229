/** The sending half of a KCP control block, and the unbounded machine that
    its 32-bit list walks implement. */
module KcpSender {
  import opened Serial
  import opened KcpWire
  import opened KcpNumbering
  import opened KcpMessages

  /** Messages of 128 fragments or more are refused. */
  const MAX_COUNT: nat := 128

  /** The sending fields of `IKCPCB`. */
  datatype Snd = Snd(una: u32, nxt: u32, queue: seq<Segment>, buf: seq<Segment>, nque: u32, nbuf: u32)

  // ----- ikcp_send

  function NewSegment(f: Fragment): Segment
    requires 0 <= f.frg < 256
  {
    Segment(0, 0, f.frg, 0, 0, 0, 0, f.data, 0, 0, 0, 0)
  }

  function NewSegments(fs: seq<Fragment>): (r: seq<Segment>)
    requires forall i :: 0 <= i < |fs| ==> 0 <= fs[i].frg < 256
    ensures |r| == |fs| && Contents(r) == fs
  {
    seq(|fs|, i requires 0 <= i < |fs| => NewSegment(fs[i]))
  }

  predicate Accepts(msg: Message, mss: nat)
    requires mss > 0
  {
    FragmentCount(|msg|, mss) < MAX_COUNT
  }

  lemma AcceptedFragments(msg: Message, mss: nat)
    requires mss > 0 && Accepts(msg, mss)
    ensures |Fragments(msg, mss)| < MAX_COUNT
    ensures forall i :: 0 <= i < |Fragments(msg, mss)| ==>
      0 <= Fragments(msg, mss)[i].frg < 256 && |Fragments(msg, mss)[i].data| <= mss
  {
    CountFragments(msg, mss);
    forall i | 0 <= i < |Fragments(msg, mss)|
      ensures 0 <= Fragments(msg, mss)[i].frg < 256 && |Fragments(msg, mss)[i].data| <= mss
    {
      FragmentShape(msg, mss, i);
    }
  }

  function Send(s: Snd, msg: Message, mss: nat): (r: (Snd, int))
    requires mss > 0
  {
    if !Accepts(msg, mss) then (s, -2)
    else
      AcceptedFragments(msg, mss);
      var segs := NewSegments(Fragments(msg, mss));
      (s.(queue := s.queue + segs, nque := Add32(s.nque, |segs|)), 0)
  }

  /** A message is accepted exactly when at most 127 segments hold it, and is then queued whole; a message that
      is refused changes nothing. */
  lemma SendCodes(s: Snd, msg: Message, mss: nat)
    requires mss > 0
    ensures var r := Send(s, msg, mss);
      && (r.1 == 0 <==> |msg| <= 127 * mss) && (r.1 == 0 || r.1 == -2)
      && (r.1 != 0 ==> r.0 == s)
      && (r.1 == 0 ==>
            && Contents(r.0.queue) == Contents(s.queue) + Fragments(msg, mss)
            && r.0 == s.(queue := r.0.queue, nque := Wrap(s.nque + |Fragments(msg, mss)|)))
  {
    CountLimit(|msg|, mss);
    if Accepts(msg, mss) {
      AcceptedFragments(msg, mss);
      hide Fragments;
    }
  }

  lemma CountLimit(len: nat, mss: nat)
    requires mss > 0
    ensures FragmentCount(len, mss) < MAX_COUNT <==> len <= 127 * mss
  {
    if len > mss {
      var q, r := (len + mss - 1) / mss, (len + mss - 1) % mss;
      assert len + mss - 1 == q * mss + r;
      if q <= 127 {
        assert q * mss <= 127 * mss;
      } else {
        assert q * mss >= 128 * mss;
      }
    } else {
      assert mss <= 127 * mss;
    }
  }

  // ----- ikcp_shrink_buf, ikcp_parse_una, ikcp_parse_ack, ikcp_parse_fastack

  function Shrink(s: Snd): Snd {
    s.(una := if s.buf != [] then s.buf[0].sn else s.nxt)
  }

  /** How many segments `una` acknowledges from the head of the list on. */
  function AckedPrefix(buf: seq<Segment>, una: u32): (k: nat)
    ensures k <= |buf|
  {
    if buf == [] || Diff32(una, buf[0].sn) <= 0 then 0 else 1 + AckedPrefix(buf[1..], una)
  }

  function ParseUna(s: Snd, una: u32): Snd {
    var k := AckedPrefix(s.buf, una);
    s.(buf := s.buf[k..], nbuf := Sub32(s.nbuf, Wrap(k)))
  }

  predicate InFlight(s: Snd, sn: u32) {
    Diff32(sn, s.una) >= 0 && Diff32(sn, s.nxt) < 0
  }

  /** Where the walk for an acknowledged number stops. */
  function AckIndex(buf: seq<Segment>, sn: u32): (k: nat)
    ensures k <= |buf|
  {
    if buf == [] || sn == buf[0].sn || Diff32(sn, buf[0].sn) < 0 then 0 else 1 + AckIndex(buf[1..], sn)
  }

  function ParseAck(s: Snd, sn: u32): Snd {
    var k := AckIndex(s.buf, sn);
    if InFlight(s, sn) && k < |s.buf| && s.buf[k].sn == sn then
      s.(buf := s.buf[..k] + s.buf[k + 1..], nbuf := Sub32(s.nbuf, 1))
    else s
  }

  function BumpFastack(buf: seq<Segment>, sn: u32): (r: seq<Segment>)
    ensures |r| == |buf|
  {
    if buf == [] || Diff32(sn, buf[0].sn) < 0 then buf
    else
      var head := if sn != buf[0].sn then buf[0].(fastack := Add32(buf[0].fastack, 1)) else buf[0];
      [head] + BumpFastack(buf[1..], sn)
  }

  function ParseFastack(s: Snd, sn: u32): Snd {
    if InFlight(s, sn) then s.(buf := BumpFastack(s.buf, sn)) else s
  }

  // ----- the first part of ikcp_flush: from snd_queue to snd_buf

  /** The fields that `ikcp_flush` writes into every segment it admits or sends. */
  datatype Stamp = Stamp(conv: u32, wnd: u32, una: u32, current: u32, rto: u32)

  function Admitted(seg: Segment, sn: u32, st: Stamp): Segment {
    seg.(conv := st.conv, cmd := CMD_PUSH, wnd := st.wnd, ts := st.current, sn := sn, una := st.una,
         resendts := st.current, rto := st.rto, fastack := 0, xmit := 0)
  }

  predicate CanAdmit(s: Snd, cwnd: u32) {
    Diff32(s.nxt, Add32(s.una, cwnd)) < 0 && s.queue != []
  }

  function AdmitOne(s: Snd, st: Stamp): Snd
    requires s.queue != []
  {
    s.(queue := s.queue[1..], buf := s.buf + [Admitted(s.queue[0], s.nxt, st)],
       nque := Sub32(s.nque, 1), nbuf := Add32(s.nbuf, 1), nxt := Add32(s.nxt, 1))
  }

  function Admit(s: Snd, cwnd: u32, st: Stamp): Snd
    decreases |s.queue|
  {
    if CanAdmit(s, cwnd) then Admit(AdmitOne(s, st), cwnd, st) else s
  }

  // ----- the invariant

  const MAX_FLIGHT: nat := 0xFFFF

  function Flight(s: Snd): nat {
    Offset(s.una, s.nxt)
  }

  /** Valid but for `una`, which the two list walks leave to `ikcp_shrink_buf`. */
  ghost predicate Loose(s: Snd) {
    && Ordered(s.buf, s.una, Flight(s)) && Flight(s) <= MAX_FLIGHT
    && s.nbuf == |s.buf| && s.nque == Wrap(|s.queue|)
  }

  ghost predicate Valid(s: Snd) {
    Loose(s) && s.una == Shrink(s).una
  }

  // ----- the unbounded machine

  /** Unbounded numbers, and the set of those not yet acknowledged. */
  datatype AbsSnd = AbsSnd(una: nat, nxt: nat, live: set<int>)

  /** The least member of `live` from `lo` on, or `hi`. */
  function Least(live: set<int>, lo: int, hi: int): (r: int)
    requires lo <= hi
    ensures lo <= r <= hi
    ensures forall k :: lo <= k < r ==> k !in live
    ensures r < hi ==> r in live
    decreases hi - lo
  {
    if lo == hi || lo in live then lo else Least(live, lo + 1, hi)
  }

  ghost predicate AbsValid(a: AbsSnd) {
    a.una <= a.nxt && forall k :: k in a.live ==> a.una <= k < a.nxt
  }

  function AbsShrink(a: AbsSnd): AbsSnd
    requires a.una <= a.nxt
  {
    a.(una := Least(a.live, a.una, a.nxt))
  }

  function AbsParseUna(a: AbsSnd, n: int): AbsSnd {
    a.(live := set k | k in a.live && k >= n)
  }

  function AbsParseAck(a: AbsSnd, n: int): AbsSnd {
    a.(live := a.live - {n})
  }

  function AbsAdmitOne(a: AbsSnd): AbsSnd {
    a.(live := a.live + {a.nxt}, nxt := a.nxt + 1)
  }

  /** The list has exactly the live numbers. */
  ghost predicate Tracks(live: set<int>, buf: seq<Segment>, base: u32, n: int) {
    forall k :: k in live <==> k - n in Offsets(buf, base)
  }

  ghost predicate LooselySimulates(s: Snd, a: AbsSnd) {
    && Loose(s) && AbsValid(a)
    && s.una == Wrap(a.una) && s.nxt == Wrap(a.nxt) && a.nxt - a.una == Flight(s)
    && Tracks(a.live, s.buf, s.una, a.una)
  }

  ghost predicate Simulates(s: Snd, a: AbsSnd) {
    LooselySimulates(s, a) && Valid(s)
  }

  // ----- the 32-bit sender simulates the unbounded one

  lemma {:induction false} AckedPrefixSplits(buf: seq<Segment>, base: u32, limit: nat, una: u32)
    requires limit <= TWO31 && Ordered(buf, base, limit) && Offset(base, una) < TWO31
    ensures forall i :: 0 <= i < AckedPrefix(buf, una) ==> Offsets(buf, base)[i] < Offset(base, una)
    ensures forall i :: AckedPrefix(buf, una) <= i < |buf| ==> Offsets(buf, base)[i] >= Offset(base, una)
  {
    var xs := Offsets(buf, base);
    if buf != [] {
      WindowDiff(una, buf[0].sn, base);
      if Diff32(una, buf[0].sn) > 0 {
        assert Offsets(buf[1..], base) == xs[1..];
        AckedPrefixSplits(buf[1..], base, limit, una);
        assert forall i :: 1 <= i < |buf| ==> xs[i] == xs[1..][i - 1];
      }
    }
  }

  lemma OrderedSuffix(buf: seq<Segment>, base: u32, limit: int, k: nat)
    requires Ordered(buf, base, limit) && k <= |buf|
    ensures Offsets(buf[k..], base) == Offsets(buf, base)[k..]
    ensures Ordered(buf[k..], base, limit)
  {}

  lemma SuffixMembers(xs: seq<int>, k: nat, bound: int)
    requires k <= |xs|
    requires forall i :: 0 <= i < k ==> xs[i] < bound
    requires forall i :: k <= i < |xs| ==> xs[i] >= bound
    ensures forall x :: x in xs[k..] <==> x in xs && x >= bound
  {
    forall x | x in xs && x >= bound ensures x in xs[k..] {
      var i :| 0 <= i < |xs| && xs[i] == x;
      assert xs[k..][i - k] == x;
    }
  }

  lemma ParseUnaTracks(s: Snd, a: AbsSnd, una: u32)
    requires Simulates(s, a)
    ensures Tracks(AbsParseUna(a, Lift(a.una, s.una, una)).live, ParseUna(s, una).buf, s.una, a.una)
  {
    var k, xs := AckedPrefix(s.buf, una), Offsets(s.buf, s.una);
    OrderedSuffix(s.buf, s.una, Flight(s), k);
    if Offset(s.una, una) < TWO31 {
      AckedPrefixSplits(s.buf, s.una, Flight(s), una);
      SuffixMembers(xs, k, Offset(s.una, una));
    } else {
      assert k == 0 && xs[k..] == xs;
      assert AbsParseUna(a, Lift(a.una, s.una, una)).live == a.live;
    }
  }

  lemma ParseUnaSimulates(s: Snd, a: AbsSnd, una: u32)
    requires Simulates(s, a)
    ensures LooselySimulates(ParseUna(s, una), AbsParseUna(a, Lift(a.una, s.una, una)))
  {
    ParseUnaTracks(s, a, una);
    OrderedSuffix(s.buf, s.una, Flight(s), AckedPrefix(s.buf, una));
    OrderedLength(s.buf, s.una, Flight(s));
  }

  lemma {:induction false} AckIndexSplits(buf: seq<Segment>, base: u32, limit: nat, sn: u32)
    requires limit <= TWO31 && Ordered(buf, base, limit) && Offset(base, sn) < limit
    ensures forall i :: 0 <= i < AckIndex(buf, sn) ==> Offsets(buf, base)[i] < Offset(base, sn)
    ensures forall i :: AckIndex(buf, sn) <= i < |buf| ==> Offsets(buf, base)[i] >= Offset(base, sn)
  {
    var xs := Offsets(buf, base);
    if buf != [] {
      WindowDiff(sn, buf[0].sn, base);
      if !(sn == buf[0].sn || Diff32(sn, buf[0].sn) < 0) {
        assert Offsets(buf[1..], base) == xs[1..];
        AckIndexSplits(buf[1..], base, limit, sn);
        assert forall i :: 1 <= i < |buf| ==> xs[i] == xs[1..][i - 1];
      }
    }
  }

  lemma AscendingRemove(xs: seq<int>, k: nat)
    requires Ascending(xs) && k < |xs|
    ensures Ascending(xs[..k] + xs[k + 1..])
    ensures forall x :: x in xs[..k] + xs[k + 1..] <==> x in xs && x != xs[k]
  {
    var ys := xs[..k] + xs[k + 1..];
    assert forall i :: 0 <= i < |ys| ==> ys[i] == xs[if i < k then i else i + 1];
    forall x | x in xs && x != xs[k] ensures x in ys {
      var i :| 0 <= i < |xs| && xs[i] == x;
      assert ys[if i < k then i else i - 1] == x;
    }
  }

  /** A number is in flight if and only if its nearest reading lies in the window. */
  lemma InFlightMeans(s: Snd, n: int, sn: u32)
    requires Loose(s)
    ensures InFlight(s, sn) <==> n <= Lift(n, s.una, sn) < n + Flight(s)
    ensures InFlight(s, sn) ==> Lift(n, s.una, sn) == n + Offset(s.una, sn) && Offset(s.una, sn) < Flight(s)
  {}

  lemma RemoveTracks(live: set<int>, buf: seq<Segment>, base: u32, n: int, limit: int, k: nat)
    requires Ordered(buf, base, limit) && Tracks(live, buf, base, n) && k < |buf|
    ensures Ordered(buf[..k] + buf[k + 1..], base, limit)
    ensures Tracks(live - {n + Offset(base, buf[k].sn)}, buf[..k] + buf[k + 1..], base, n)
  {
    var xs := Offsets(buf, base);
    AscendingRemove(xs, k);
    assert Offsets(buf[..k] + buf[k + 1..], base) == xs[..k] + xs[k + 1..];
  }

  lemma AbsentAck(buf: seq<Segment>, base: u32, limit: nat, sn: u32)
    requires limit <= TWO31 && Ordered(buf, base, limit) && Offset(base, sn) < limit
    requires AckIndex(buf, sn) == |buf| || buf[AckIndex(buf, sn)].sn != sn
    ensures Offset(base, sn) !in Offsets(buf, base)
  {
    AckIndexSplits(buf, base, limit, sn);
    var k, xs := AckIndex(buf, sn), Offsets(buf, base);
    assert k < |buf| ==> xs[k] > Offset(base, sn);
  }

  lemma ParseAckTracks(s: Snd, a: AbsSnd, sn: u32)
    requires Simulates(s, a)
    ensures Ordered(ParseAck(s, sn).buf, s.una, Flight(s))
    ensures Tracks(AbsParseAck(a, Lift(a.una, s.una, sn)).live, ParseAck(s, sn).buf, s.una, a.una)
  {
    hide AckIndex, InFlight, Ordered, Tracks, Offset, Lift, Flight;
    var k, n := AckIndex(s.buf, sn), Lift(a.una, s.una, sn);
    InFlightMeans(s, a.una, sn);
    if InFlight(s, sn) && k < |s.buf| && s.buf[k].sn == sn {
      RemoveTracks(a.live, s.buf, s.una, a.una, Flight(s), k);
    } else {
      if InFlight(s, sn) {
        AbsentAck(s.buf, s.una, Flight(s), sn);
        NotTracked(a.live, s.buf, s.una, a.una, n);
      }
      assert a.live - {n} == a.live;
    }
  }

  lemma NotTracked(live: set<int>, buf: seq<Segment>, base: u32, n: int, x: int)
    requires Tracks(live, buf, base, n) && x - n !in Offsets(buf, base)
    ensures x !in live
  {}

  lemma ParseAckSimulates(s: Snd, a: AbsSnd, sn: u32)
    requires Simulates(s, a)
    ensures LooselySimulates(ParseAck(s, sn), AbsParseAck(a, Lift(a.una, s.una, sn)))
  {
    ParseAckTracks(s, a, sn);
  }

  /** The window starts `o` numbers later, before every number in use. */
  lemma Rebase(buf: seq<Segment>, base: u32, limit: nat, o: u32)
    requires Ordered(buf, base, limit) && limit < TWO32
    requires o <= limit && forall i :: 0 <= i < |buf| ==> Offsets(buf, base)[i] >= o
    ensures Ordered(buf, Add32(base, o), limit - o)
    ensures forall i :: 0 <= i < |buf| ==> Offsets(buf, Add32(base, o))[i] == Offsets(buf, base)[i] - o
  {
    forall i | 0 <= i < |buf| ensures Offsets(buf, Add32(base, o))[i] == Offsets(buf, base)[i] - o {
      assert Offset(base, buf[i].sn) >= o;
    }
  }

  lemma RebaseTracks(live: set<int>, buf: seq<Segment>, base: u32, n: int, limit: nat, o: u32)
    requires Ordered(buf, base, limit) && limit < TWO32 && Tracks(live, buf, base, n)
    requires o <= limit && forall i :: 0 <= i < |buf| ==> Offsets(buf, base)[i] >= o
    ensures Tracks(live, buf, Add32(base, o), n + o)
  {
    hide Ordered, Offset, Add32;
    Rebase(buf, base, limit, o);
    var xs, ys := Offsets(buf, base), Offsets(buf, Add32(base, o));
    forall k ensures k in live <==> k - (n + o) in ys {
      ShiftedIn(xs, ys, o, k - n);
    }
  }

  lemma ShiftedIn(xs: seq<int>, ys: seq<int>, o: int, x: int)
    requires |xs| == |ys| && forall i :: 0 <= i < |xs| ==> ys[i] == xs[i] - o
    ensures x in xs <==> x - o in ys
  {
    if x in xs {
      var i :| 0 <= i < |xs| && xs[i] == x;
      assert ys[i] == x - o;
    }
    if x - o in ys {
      var i :| 0 <= i < |ys| && ys[i] == x - o;
      assert xs[i] == x;
    }
  }

  function ShrinkBy(s: Snd): nat {
    Offset(s.una, Shrink(s).una)
  }

  lemma ShrinkOffset(s: Snd, a: AbsSnd)
    requires LooselySimulates(s, a)
    ensures ShrinkBy(s) <= Flight(s) && Shrink(s).una == Add32(s.una, ShrinkBy(s))
    ensures forall i :: 0 <= i < |s.buf| ==> Offsets(s.buf, s.una)[i] >= ShrinkBy(s)
    ensures AbsShrink(a).una == a.una + ShrinkBy(s)
  {
    var xs, n := Offsets(s.buf, s.una), AbsShrink(a).una;
    if s.buf != [] {
      assert xs[0] in xs && xs[0] == ShrinkBy(s);
      assert a.una + xs[0] in a.live;
      assert n in a.live && n - a.una in xs;
    } else {
      assert a.live == {};
    }
  }

  lemma ShrinkSimulates(s: Snd, a: AbsSnd)
    requires LooselySimulates(s, a)
    ensures Simulates(Shrink(s), AbsShrink(a))
  {
    var o := ShrinkBy(s);
    ShrinkOffset(s, a);
    assert Shrink(s).una == Wrap(a.una + o) by { WrapAdd(a.una, o); }
    FlightShrinks(s, o);
    Rebase(s.buf, s.una, Flight(s), o);
    RebaseTracks(a.live, s.buf, s.una, a.una, Flight(s), o);
    hide Ordered, Tracks, Offset, Flight, Add32, Wrap;
  }

  lemma FlightShrinks(s: Snd, o: u32)
    requires o <= Flight(s) && Shrink(s).una == Add32(s.una, o)
    ensures Flight(Shrink(s)) == Flight(s) - o
  {}

  lemma CanAdmitMeans(s: Snd, cwnd: u32)
    requires Flight(s) <= MAX_FLIGHT && cwnd <= MAX_FLIGHT
    ensures CanAdmit(s, cwnd) <==> Flight(s) < cwnd && s.queue != []
  {}

  lemma AdmitTracks(s: Snd, a: AbsSnd, st: Stamp)
    requires Simulates(s, a) && Flight(s) < MAX_FLIGHT && s.queue != []
    ensures Ordered(AdmitOne(s, st).buf, s.una, Flight(s) + 1)
    ensures Tracks(AbsAdmitOne(a).live, AdmitOne(s, st).buf, s.una, a.una)
  {
    var xs, ys := Offsets(s.buf, s.una), Offsets(AdmitOne(s, st).buf, s.una);
    assert ys == xs + [Flight(s)];
    forall k ensures k in AbsAdmitOne(a).live <==> k - a.una in ys {
      assert k - a.una in ys <==> k - a.una in xs || k - a.una == Flight(s);
    }
  }

  lemma AdmitOneSimulates(s: Snd, a: AbsSnd, st: Stamp)
    requires Simulates(s, a) && Flight(s) < MAX_FLIGHT && s.queue != []
    ensures Simulates(AdmitOne(s, st), AbsAdmitOne(a))
    ensures Flight(AdmitOne(s, st)) == Flight(s) + 1
  {
    AdmitTracks(s, a, st);
    OrderedLength(s.buf, s.una, Flight(s));
    WrapAdd(a.nxt, 1);
  }

  /** In every run the sender keeps at most 65535 numbers in flight. */
  lemma {:induction false} AdmitSimulates(s: Snd, a: AbsSnd, cwnd: u32, st: Stamp) returns (a': AbsSnd)
    requires Simulates(s, a) && cwnd <= MAX_FLIGHT
    ensures Simulates(Admit(s, cwnd, st), a')
    ensures a'.una == a.una && a.nxt <= a'.nxt
    ensures forall k :: k in a'.live <==> k in a.live || a.nxt <= k < a'.nxt
    ensures |s.queue| - |Admit(s, cwnd, st).queue| == a'.nxt - a.nxt
    decreases |s.queue|
  {
    CanAdmitMeans(s, cwnd);
    if CanAdmit(s, cwnd) {
      AdmitOneSimulates(s, a, st);
      a' := AdmitSimulates(AdmitOne(s, st), AbsAdmitOne(a), cwnd, st);
    } else {
      a' := a;
    }
  }

  lemma AdmitOneFlight(s: Snd, st: Stamp)
    requires s.queue != [] && Flight(s) < MAX_FLIGHT
    ensures Flight(AdmitOne(s, st)) == Flight(s) + 1
  {}

  lemma AddShift(a: u32, i: nat)
    requires i < MAX_FLIGHT
    ensures Add32(a, 0) == a
    ensures i > 0 ==> Add32(Add32(a, 1), i - 1) == Add32(a, i)
  {}

  /** The window is respected and used up: a flush admits from the front of the queue until the window is
      full or the queue is empty, and numbers what it admits in order. */
  lemma {:induction false} AdmitFills(s: Snd, cwnd: u32, st: Stamp)
    requires Flight(s) <= MAX_FLIGHT && cwnd <= MAX_FLIGHT
    ensures var s' := Admit(s, cwnd, st);
      var n := Flight(s') - Flight(s);
      && s'.una == s.una && 0 <= n <= |s.queue| && s'.queue == s.queue[n..]
      && |s'.buf| == |s.buf| + n && s.buf <= s'.buf
      && (forall i :: 0 <= i < n ==> s'.buf[|s.buf| + i] == Admitted(s.queue[i], Add32(s.nxt, i), st))
      && Flight(s') <= Max(Flight(s), cwnd)
      && (s'.queue == [] || Flight(s') >= cwnd)
    decreases |s.queue|
  {
    hide Admitted, Flight, Add32, Sub32, CanAdmit;
    CanAdmitMeans(s, cwnd);
    if CanAdmit(s, cwnd) {
      var t := AdmitOne(s, st);
      AdmitOneFlight(s, st);
      AdmitFills(t, cwnd, st);
      var s' := Admit(s, cwnd, st);
      assert s' == Admit(t, cwnd, st);
      hide Admit;
      var n := Flight(s') - Flight(s);
      forall i | 0 <= i < n ensures s'.buf[|s.buf| + i] == Admitted(s.queue[i], Add32(s.nxt, i), st) {
        AddShift(s.nxt, i);
        if i == 0 {
          assert s'.buf[|s.buf|] == t.buf[|s.buf|];
        } else {
          assert s'.buf[|t.buf| + (i - 1)] == Admitted(t.queue[i - 1], Add32(t.nxt, i - 1), st);
        }
      }
    }
  }

  /** A fast acknowledgement counts exactly the segments in flight before the one acknowledged. */
  lemma {:induction false} BumpMeans(buf: seq<Segment>, base: u32, limit: nat, sn: u32)
    requires limit <= TWO31 && Ordered(buf, base, limit) && Offset(base, sn) < TWO31
    ensures var r := BumpFastack(buf, sn);
      forall i :: 0 <= i < |buf| ==> r[i] == Bumped(buf[i], base, sn)
    decreases |buf|
  {
    hide Ordered, Diff32, Bumped;
    if buf != [] {
      BumpHead(buf, base, limit, sn);
      if Diff32(sn, buf[0].sn) < 0 {
        forall i | 0 <= i < |buf| ensures Bumped(buf[i], base, sn) == buf[i] {
          BumpNone(buf, base, limit, sn, i);
        }
      } else {
        var rest := BumpFastack(buf[1..], sn);
        BumpMeans(buf[1..], base, limit, sn);
        assert BumpFastack(buf, sn) == [Bumped(buf[0], base, sn)] + rest;
        assert forall i :: 1 <= i < |buf| ==> buf[i] == buf[1..][i - 1];
      }
    }
  }

  /** The segment with one more skipped acknowledgement, if it lies before `sn`. */
  function Bumped(seg: Segment, base: u32, sn: u32): Segment {
    seg.(fastack := if Offset(base, seg.sn) < Offset(base, sn) then Add32(seg.fastack, 1) else seg.fastack)
  }

  lemma BumpHead(buf: seq<Segment>, base: u32, limit: nat, sn: u32)
    requires buf != [] && limit <= TWO31 && Ordered(buf, base, limit) && Offset(base, sn) < TWO31
    ensures Ordered(buf[1..], base, limit)
    ensures Diff32(sn, buf[0].sn) >= 0 ==>
      Bumped(buf[0], base, sn) == if sn != buf[0].sn then buf[0].(fastack := Add32(buf[0].fastack, 1)) else buf[0]
  {
    var xs := Offsets(buf, base);
    assert Offsets(buf[1..], base) == xs[1..] && xs[0] < limit;
    WindowDiff(sn, buf[0].sn, base);
  }

  lemma BumpNone(buf: seq<Segment>, base: u32, limit: nat, sn: u32, i: nat)
    requires i < |buf| && limit <= TWO31 && Ordered(buf, base, limit) && Offset(base, sn) < TWO31
    requires Diff32(sn, buf[0].sn) < 0
    ensures Bumped(buf[i], base, sn) == buf[i]
  {
    var xs := Offsets(buf, base);
    assert xs[0] < limit && xs[0] <= xs[i];
    WindowDiff(sn, buf[0].sn, base);
  }
}
