/** One direction of a connection: what the sending half of one endpoint, the
    receiving half of the other, and the segments under way have in common. */
module KcpLink {
  import opened Serial
  import opened KcpWire
  import opened KcpNumbering
  import R = KcpReceiver
  import opened KcpMessages
  import S = KcpSender
  import opened KcpTiming
  import opened KcpControl

  /** A segment under way, with the unbounded numbers that its 32-bit fields
      stand for: that of `sn`, for data and acknowledgements, and that of `una`. */
  datatype Tagged = Tagged(seg: Segment, num: int, una: int)

  /** A sending half: the 32-bit machine, the unbounded one in step with it, and
      the messages it has accepted. */
  datatype Tx = Tx(mss: nat, s: S.Snd, a: S.AbsSnd, sent: seq<Message>)

  /** A receiving half: likewise, with the acknowledgements it still has to
      send, their unbounded numbers, and the messages it has delivered. */
  datatype Rx = Rx(r: R.Rcv, a: R.AbsRcv, acks: seq<Ack>, nums: seq<int>, got: seq<Message>)

  // ----- the invariant of a link

  /** Whichever number between `lo` and `hi` a segment's 32-bit number stands
      for, the segment carries the fragment with that number. */
  ghost predicate Carries(buf: seq<Segment>, lo: int, hi: int, stream: seq<Fragment>)
    requires 0 <= lo && hi <= |stream|
  {
    forall seg, n :: seg in buf && lo <= n < hi && seg.sn == Wrap(n) ==> Content(seg) == stream[n]
  }

  ghost predicate SendsStream(tx: Tx) {
    && tx.mss > 0
    && S.Simulates(tx.s, tx.a)
    && var stream := Stream(tx.sent, tx.mss);
      && tx.a.nxt <= |stream|
      && Contents(tx.s.queue) == stream[tx.a.nxt..]
      && Carries(tx.s.buf, tx.a.una, tx.a.nxt, stream)
      && (forall i :: 0 <= i < |tx.sent| ==> S.Accepts(tx.sent[i], tx.mss))
  }

  /** The queue is the stream from `d` on, and what waits out of order belongs to it. */
  ghost predicate HoldsPart(a: R.AbsRcv, stream: seq<Fragment>, d: nat, limit: nat) {
    && d + |a.queue| == a.nxt <= limit <= |stream|
    && Contents(a.queue) == stream[d..a.nxt]
    && (forall k :: k in a.buf ==> a.nxt <= k < limit && Content(a.buf[k]) == stream[k])
  }

  /** What has been delivered is a prefix of what was sent, and the queue starts
      at the boundary behind it. */
  ghost predicate DeliversPrefix(tx: Tx, rx: Rx)
    requires tx.mss > 0
  {
    && R.Simulates(rx.r, rx.a) && !R.CanMove(rx.r)
    && rx.got <= tx.sent
    && HoldsPart(rx.a, Stream(tx.sent, tx.mss), |Stream(rx.got, tx.mss)|, tx.a.nxt)
  }

  /** The receiver has delivered `n`, or has it in its queue or its buffer. */
  predicate Has(a: R.AbsRcv, n: int) {
    n < a.nxt || n in a.buf
  }

  ghost predicate DataTruthful(tx: Tx, fwd: set<Tagged>)
    requires tx.mss > 0 && tx.a.nxt <= |Stream(tx.sent, tx.mss)|
  {
    forall t :: t in fwd && t.seg.cmd == CMD_PUSH ==>
      && 0 <= t.num < tx.a.nxt && t.seg.sn == Wrap(t.num)
      && Content(t.seg) == Stream(tx.sent, tx.mss)[t.num]
  }

  ghost predicate AcksTruthful(a: R.AbsRcv, bwd: set<Tagged>) {
    forall t :: t in bwd ==>
      && 0 <= t.una <= a.nxt && t.seg.una == Wrap(t.una)
      && (t.seg.cmd == CMD_ACK ==> 0 <= t.num && Has(a, t.num) && t.seg.sn == Wrap(t.num))
  }

  ghost predicate PendingTruthful(rx: Rx) {
    && |rx.acks| == |rx.nums|
    && forall i :: 0 <= i < |rx.acks| ==>
         0 <= rx.nums[i] && Has(rx.a, rx.nums[i]) && rx.acks[i].sn == Wrap(rx.nums[i])
  }

  /** No segment is forgotten. */
  ghost predicate NothingLost(a: S.AbsSnd, b: R.AbsRcv) {
    forall n :: 0 <= n < a.nxt ==> n in a.live || Has(b, n)
  }

  ghost predicate Link(tx: Tx, rx: Rx, fwd: set<Tagged>, bwd: set<Tagged>) {
    && SendsStream(tx)
    && DeliversPrefix(tx, rx)
    && DataTruthful(tx, fwd)
    && AcksTruthful(rx.a, bwd)
    && PendingTruthful(rx)
    && NothingLost(tx.a, rx.a)
  }

  // ----- acknowledgements arrive

  /** The numbers carried are at most 2^31 behind the newest one. */
  predicate Recent(n: int, nxt: int) {
    n >= nxt - TWO31
  }

  function TxUna(tx: Tx, t: Tagged): Tx {
    if tx.a.una <= tx.a.nxt then
      tx.(s := S.Shrink(S.ParseUna(tx.s, t.seg.una)), a := S.AbsShrink(S.AbsParseUna(tx.a, t.una)))
    else tx
  }

  function TxAck(tx: Tx, t: Tagged): Tx {
    if tx.a.una <= tx.a.nxt then
      tx.(s := S.Shrink(S.ParseAck(tx.s, t.seg.sn)), a := S.AbsShrink(S.AbsParseAck(tx.a, t.num)))
    else tx
  }

  lemma LiftIs(n: int, base: int)
    requires -TWO31 <= n - base < TWO31
    ensures Lift(base, Wrap(base), Wrap(n)) == n
  {
    WrapDiff(n, base);
  }

  /** What the receiver has told of lies close to the window of the sender. */
  lemma ToldBounds(tx: Tx, rx: Rx, n: int)
    requires SendsStream(tx) && DeliversPrefix(tx, rx)
    requires n <= rx.a.nxt || Has(rx.a, n)
    ensures n <= tx.a.nxt <= tx.a.una + S.MAX_FLIGHT
  {}

  lemma UnaLink(tx: Tx, rx: Rx, fwd: set<Tagged>, bwd: set<Tagged>, t: Tagged)
    requires Link(tx, rx, fwd, bwd) && t in bwd && Recent(t.una, tx.a.nxt)
    ensures Link(TxUna(tx, t), rx, fwd, bwd) && TxUna(tx, t).a.nxt == tx.a.nxt
  {
    var tx' := TxUna(tx, t);
    ToldBounds(tx, rx, t.una);
    LiftIs(t.una, tx.a.una);
    S.ParseUnaSimulates(tx.s, tx.a, t.seg.una);
    S.ShrinkSimulates(S.ParseUna(tx.s, t.seg.una), S.AbsParseUna(tx.a, t.una));
    assert SendsStream(tx');
  }

  lemma CarriesPart(buf: seq<Segment>, part: seq<Segment>, lo: int, lo': int, hi: int, stream: seq<Fragment>)
    requires 0 <= lo <= lo' && hi <= |stream| && Carries(buf, lo, hi, stream)
    requires forall seg :: seg in part ==> seg in buf
    ensures Carries(part, lo', hi, stream)
  {}

  lemma AckLink(tx: Tx, rx: Rx, fwd: set<Tagged>, bwd: set<Tagged>, t: Tagged)
    requires Link(tx, rx, fwd, bwd) && t in bwd && t.seg.cmd == CMD_ACK && Recent(t.num, tx.a.nxt)
    ensures Link(TxAck(tx, t), rx, fwd, bwd) && TxAck(tx, t).a.nxt == tx.a.nxt
  {
    var tx' := TxAck(tx, t);
    ToldBounds(tx, rx, t.num);
    LiftIs(t.num, tx.a.una);
    S.ParseAckSimulates(tx.s, tx.a, t.seg.sn);
    S.ShrinkSimulates(S.ParseAck(tx.s, t.seg.sn), S.AbsParseAck(tx.a, t.num));
    assert forall seg :: seg in tx'.s.buf ==> seg in tx.s.buf;
    CarriesPart(tx.s.buf, tx'.s.buf, tx.a.una, tx'.a.una, tx.a.nxt, Stream(tx.sent, tx.mss));
    hide S.Simulates, Carries, Stream, DeliversPrefix;
    assert SendsStream(tx');
  }

  // ----- data arrives

  lemma MoveKeepsPart(a: R.AbsRcv, stream: seq<Fragment>, d: nat, limit: nat)
    requires HoldsPart(a, stream, d, limit) && R.AbsCanMove(a)
    ensures HoldsPart(R.AbsMove(a), stream, d, limit)
    ensures forall n :: Has(R.AbsMove(a), n) <==> Has(a, n)
  {
    var a' := R.AbsMove(a);
    assert Contents(a'.queue) == Contents(a.queue) + [Content(a.buf[a.nxt])];
    assert stream[d..a'.nxt] == stream[d..a.nxt] + [stream[a.nxt]];
  }

  lemma {:induction false} DrainKeepsPart(a: R.AbsRcv, stream: seq<Fragment>, d: nat, limit: nat)
    requires HoldsPart(a, stream, d, limit)
    ensures HoldsPart(R.AbsDrain(a), stream, d, limit)
    ensures a.nxt <= R.AbsDrain(a).nxt && R.AbsDrain(a).wnd == a.wnd
    ensures forall n :: Has(R.AbsDrain(a), n) <==> Has(a, n)
    decreases |a.buf|
  {
    if R.AbsCanMove(a) {
      MoveKeepsPart(a, stream, d, limit);
      DrainKeepsPart(R.AbsMove(a), stream, d, limit);
    }
  }

  lemma ParseKeepsPart(a: R.AbsRcv, stream: seq<Fragment>, d: nat, limit: nat, n: int, seg: Segment)
    requires HoldsPart(a, stream, d, limit)
    requires 0 <= n < limit && Content(seg) == stream[n]
    ensures var a' := R.AbsParseData(a, n, seg);
      && HoldsPart(a', stream, d, limit) && a.nxt <= a'.nxt && a'.wnd == a.wnd
      && (forall k :: Has(a, k) ==> Has(a', k))
      && (n < a.nxt + a.wnd ==> Has(a', n))
  {
    if a.nxt <= n < a.nxt + a.wnd {
      DrainKeepsPart(a.(buf := R.AbsStore(a.buf, n, seg)), stream, d, limit);
    }
  }

  function RxPush(rx: Rx, t: Tagged): Rx {
    if Diff32(t.seg.sn, Add32(rx.r.nxt, rx.r.wnd)) < 0 then
      rx.(acks := rx.acks + [Ack(t.seg.sn, t.seg.ts)], nums := rx.nums + [t.num],
          r := if Diff32(t.seg.sn, rx.r.nxt) >= 0 then R.ParseData(rx.r, OnWire(t.seg)) else rx.r,
          a := R.AbsParseData(rx.a, t.num, OnWire(t.seg)))
    else rx
  }

  /** Windows leave room below 2^31 for what may be in flight. */
  const MAX_WND: nat := 0x7FFF_0000

  /** The sender is never more than a window and a flight ahead of the receiver. */
  lemma AheadBound(tx: Tx, rx: Rx)
    requires SendsStream(tx) && DeliversPrefix(tx, rx) && NothingLost(tx.a, rx.a)
    ensures tx.a.nxt <= rx.a.nxt + rx.a.wnd + S.MAX_FLIGHT
  {
    R.StoredInWindow(rx.r, rx.a);
    var n := rx.a.nxt + rx.a.wnd;
    assert !Has(rx.a, n);
    assert n < tx.a.una ==> n !in tx.a.live;
  }

  lemma PushSimulates(rx: Rx, t: Tagged)
    requires R.Simulates(rx.r, rx.a) && !R.CanMove(rx.r)
    requires t.seg.sn == Wrap(t.num) && -TWO31 <= t.num - rx.a.nxt < TWO31
    ensures var rx' := RxPush(rx, t);
      && R.Simulates(rx'.r, rx'.a) && !R.CanMove(rx'.r)
      && (rx'.a == rx.a || rx'.a == R.AbsParseData(rx.a, t.num, OnWire(t.seg)))
      && (rx' != rx ==> t.num < rx.a.nxt + rx.a.wnd && rx'.a == R.AbsParseData(rx.a, t.num, OnWire(t.seg)))
  {
    LiftIs(t.num, rx.a.nxt);
    R.WindowMeans(rx.r, rx.a.nxt, t.seg.sn);
    R.ParseDataSimulates(rx.r, rx.a, OnWire(t.seg));
  }

  /** What a segment of data does to the receiver. */
  lemma PushParts(tx: Tx, rx: Rx, fwd: set<Tagged>, bwd: set<Tagged>, t: Tagged)
    requires Link(tx, rx, fwd, bwd) && t in fwd && t.seg.cmd == CMD_PUSH
    requires Recent(t.num, tx.a.nxt) && rx.a.wnd <= MAX_WND
    ensures tx.mss > 0 && t.num >= 0 && t.seg.sn == Wrap(t.num)
    ensures var rx' := RxPush(rx, t);
      && R.Simulates(rx'.r, rx'.a) && !R.CanMove(rx'.r) && rx.a.nxt <= rx'.a.nxt && rx'.a.wnd == rx.a.wnd
      && HoldsPart(rx'.a, Stream(tx.sent, tx.mss), |Stream(rx.got, tx.mss)|, tx.a.nxt)
      && (forall k :: Has(rx.a, k) ==> Has(rx'.a, k)) && (rx' != rx ==> Has(rx'.a, t.num))
  {
    hide S.Simulates, Carries, R.CanMove, R.Simulates, PendingTruthful, AcksTruthful, NothingLost;
    AheadBound(tx, rx);
    PushSimulates(rx, t);
    ParseKeepsPart(rx.a, Stream(tx.sent, tx.mss), |Stream(rx.got, tx.mss)|, tx.a.nxt, t.num, OnWire(t.seg));
  }

  lemma PushLink(tx: Tx, rx: Rx, fwd: set<Tagged>, bwd: set<Tagged>, t: Tagged)
    requires Link(tx, rx, fwd, bwd) && t in fwd && t.seg.cmd == CMD_PUSH
    requires Recent(t.num, tx.a.nxt) && rx.a.wnd <= MAX_WND
    ensures Link(tx, RxPush(rx, t), fwd, bwd) && RxPush(rx, t).a.wnd == rx.a.wnd
  {
    hide R.Simulates, R.CanMove, R.ParseData, R.AbsParseData, HoldsPart, Wrap, Has, Recent, SendsStream;
    PushParts(tx, rx, fwd, bwd, t);
  }

  // ----- ikcp_send

  function TxSend(tx: Tx, msg: Message): Tx
    requires tx.mss > 0
  {
    if S.Accepts(msg, tx.mss) then tx.(s := S.Send(tx.s, msg, tx.mss).0, sent := tx.sent + [msg]) else tx
  }

  lemma SendSimulates(s: S.Snd, a: S.AbsSnd, msg: Message, mss: nat)
    requires mss > 0 && S.Simulates(s, a) && S.Accepts(msg, mss)
    ensures var s' := S.Send(s, msg, mss).0;
      S.Simulates(s', a) && s'.buf == s.buf && Contents(s'.queue) == Contents(s.queue) + Fragments(msg, mss)
  {
    S.AcceptedFragments(msg, mss);
    var segs := S.NewSegments(Fragments(msg, mss));
    WrapAdd(|s.queue|, |segs|);
    assert Contents(s.queue + segs) == Contents(s.queue) + Contents(segs);
  }

  lemma SendStream(tx: Tx, msg: Message)
    requires SendsStream(tx)
    ensures SendsStream(TxSend(tx, msg))
    ensures Stream(tx.sent, tx.mss) <= Stream(TxSend(tx, msg).sent, tx.mss)
  {
    hide S.Simulates, Stream, Fragments, S.Accepts, S.Send;
    if S.Accepts(msg, tx.mss) {
      var stream := Stream(tx.sent, tx.mss) + Fragments(msg, tx.mss);
      StreamAppend(tx.sent, msg, tx.mss);
      SendSimulates(tx.s, tx.a, msg, tx.mss);
      assert Carries(tx.s.buf, tx.a.una, tx.a.nxt, stream);
    }
  }

  lemma SendLink(tx: Tx, rx: Rx, fwd: set<Tagged>, bwd: set<Tagged>, msg: Message)
    requires Link(tx, rx, fwd, bwd)
    ensures Link(TxSend(tx, msg), rx, fwd, bwd)
  {
    SendStream(tx, msg);
    var tx' := TxSend(tx, msg);
    var d, stream, stream' := |Stream(rx.got, tx.mss)|, Stream(tx.sent, tx.mss), Stream(tx'.sent, tx.mss);
    hide SendsStream, Stream, R.Simulates, R.CanMove;
    assert stream[d..rx.a.nxt] == stream'[d..rx.a.nxt];
    assert DeliversPrefix(tx', rx);
  }

  // ----- ikcp_recv

  function RxRecv(rx: Rx, len: int): Rx {
    var got := Recv(rx.r, len);
    if got.rc < 0 then rx
    else if len < 0 then rx.(r := got.r, a := R.AbsDrain(rx.a))
    else if Span(rx.r.queue) <= |rx.a.queue| then
      rx.(r := got.r, a := R.AbsDrain(rx.a.(queue := rx.a.queue[Span(rx.r.queue)..])), got := rx.got + [got.data])
    else rx
  }

  /** The stream from a message boundary on starts with the next message. */
  lemma NextMessage(sent: seq<Message>, j: nat, mss: nat)
    requires mss > 0 && j <= |sent|
    ensures var stream, d := Stream(sent, mss), |Stream(sent[..j], mss)|;
      && d <= |stream| && stream[..d] == Stream(sent[..j], mss)
      && (j == |sent| ==> d == |stream|)
      && (j < |sent| ==> stream[d..] == Fragments(sent[j], mss) + Stream(sent[j + 1..], mss))
  {
    assert sent == sent[..j] + sent[j..];
    StreamConcat(sent[..j], sent[j..], mss);
  }

  /** The queue starts with the message that comes after those delivered. */
  lemma QueueStarts(tx: Tx, rx: Rx)
    requires SendsStream(tx) && DeliversPrefix(tx, rx) && rx.r.queue != []
    ensures |rx.got| < |tx.sent|
    ensures var msg := tx.sent[|rx.got|];
      var rest := Fragments(msg, tx.mss) + Stream(tx.sent[|rx.got| + 1..], tx.mss);
      && rest == Stream(tx.sent, tx.mss)[|Stream(rx.got, tx.mss)|..]
      && Contents(rx.r.queue) <= rest
  {
    NextMessage(tx.sent, |rx.got|, tx.mss);
    assert tx.sent[..|rx.got|] == rx.got;
  }

  /** What `ikcp_recv` returns is the next message that was sent. */
  lemma RecvNext(tx: Tx, rx: Rx, len: int)
    requires SendsStream(tx) && DeliversPrefix(tx, rx) && Recv(rx.r, len).rc >= 0
    ensures |rx.got| < |tx.sent| && Recv(rx.r, len).data == tx.sent[|rx.got|]
    ensures Span(rx.r.queue) == |Fragments(tx.sent[|rx.got|], tx.mss)|
  {
    hide Stream, Fragments;
    QueueStarts(tx, rx);
    var msg := tx.sent[|rx.got|];
    var fs := Fragments(msg, tx.mss);
    var rest := fs + Stream(tx.sent[|rx.got| + 1..], tx.mss);
    PeekMeans(rx.r, msg, tx.mss, rest);
    assert Contents(rx.r.queue) == fs + Contents(rx.r.queue)[|fs|..];
    MergeFragments(rx.r.queue, msg, tx.mss, Contents(rx.r.queue)[|fs|..]);
  }

  /** A full receive queue always holds a complete message: the application can
      make room. */
  lemma NeverStuck(tx: Tx, rx: Rx)
    requires SendsStream(tx) && DeliversPrefix(tx, rx) && rx.r.nque >= rx.r.wnd
    ensures PeekSize(rx.r) >= 0
  {
    QueueStarts(tx, rx);
    var msg := tx.sent[|rx.got|];
    S.AcceptedFragments(msg, tx.mss);
    PeekMeans(rx.r, msg, tx.mss, Fragments(msg, tx.mss) + Stream(tx.sent[|rx.got| + 1..], tx.mss));
  }

  lemma TakeSimulates(r: R.Rcv, a: R.AbsRcv, n: nat)
    requires R.Simulates(r, a) && n <= |r.queue|
    ensures R.Simulates(Take(r, n), a.(queue := a.queue[n..]))
  {}

  lemma TakePart(a: R.AbsRcv, stream: seq<Fragment>, d: nat, limit: nat, n: nat)
    requires HoldsPart(a, stream, d, limit) && n <= |a.queue|
    ensures HoldsPart(a.(queue := a.queue[n..]), stream, d + n, limit)
  {
    assert Contents(a.queue[n..]) == Contents(a.queue)[n..] == stream[d + n..a.nxt];
  }

  lemma RecvTakes(tx: Tx, rx: Rx, len: nat)
    requires SendsStream(tx) && DeliversPrefix(tx, rx) && Recv(rx.r, len).rc >= 0
    ensures Span(rx.r.queue) <= |rx.a.queue|
    ensures var n := Span(rx.r.queue);
      var a := rx.a.(queue := rx.a.queue[n..]);
      && R.Simulates(Take(rx.r, n), a)
      && rx.got + [Recv(rx.r, len).data] <= tx.sent
      && HoldsPart(a, Stream(tx.sent, tx.mss), |Stream(rx.got + [Recv(rx.r, len).data], tx.mss)|, tx.a.nxt)
  {
    hide Stream, Fragments, S.Simulates, Carries, Gather, Sizes;
    var n := Span(rx.r.queue);
    RecvNext(tx, rx, len);
    TakeSimulates(rx.r, rx.a, n);
    TakePart(rx.a, Stream(tx.sent, tx.mss), |Stream(rx.got, tx.mss)|, tx.a.nxt, n);
    StreamAppend(rx.got, tx.sent[|rx.got|], tx.mss);
  }

  lemma RecvDelivers(tx: Tx, rx: Rx, len: int)
    requires SendsStream(tx) && DeliversPrefix(tx, rx)
    ensures var rx' := RxRecv(rx, len);
      && DeliversPrefix(tx, rx') && rx'.a.nxt >= rx.a.nxt && rx'.a.wnd == rx.a.wnd
      && (forall k :: Has(rx.a, k) ==> Has(rx'.a, k))
  {
    hide Stream, HoldsPart, R.Simulates, PeekSize, Gather, Sizes;
    if Recv(rx.r, len).rc >= 0 {
      var stream, n := Stream(tx.sent, tx.mss), Span(rx.r.queue);
      if len < 0 {
        R.DrainSimulates(rx.r, rx.a);
        DrainKeepsPart(rx.a, stream, |Stream(rx.got, tx.mss)|, tx.a.nxt);
      } else {
        RecvTakes(tx, rx, len);
        var a := rx.a.(queue := rx.a.queue[n..]);
        R.DrainSimulates(Take(rx.r, n), a);
        DrainKeepsPart(a, stream, |Stream(rx.got + [Recv(rx.r, len).data], tx.mss)|, tx.a.nxt);
      }
    }
  }

  lemma RecvLink(tx: Tx, rx: Rx, fwd: set<Tagged>, bwd: set<Tagged>, len: int)
    requires Link(tx, rx, fwd, bwd)
    ensures Link(tx, RxRecv(rx, len), fwd, bwd)
    ensures RxRecv(rx, len).a.wnd == rx.a.wnd
  {
    RecvDelivers(tx, rx, len);
    hide SendsStream, DeliversPrefix, Stream, Wrap, Has;
    var rx' := RxRecv(rx, len);
    assert rx'.acks == rx.acks && rx'.nums == rx.nums;
  }

  // ----- ikcp_flush

  function AbsAdmit(a: S.AbsSnd, n: nat): S.AbsSnd
    decreases n
  {
    if n == 0 then a else AbsAdmit(S.AbsAdmitOne(a), n - 1)
  }

  lemma AdmitOneStream(tx: Tx, st: S.Stamp)
    requires SendsStream(tx) && S.Flight(tx.s) < S.MAX_FLIGHT && tx.s.queue != []
    ensures SendsStream(tx.(s := S.AdmitOne(tx.s, st), a := S.AbsAdmitOne(tx.a)))
  {
    var s', a', stream := S.AdmitOne(tx.s, st), S.AbsAdmitOne(tx.a), Stream(tx.sent, tx.mss);
    S.AdmitOneSimulates(tx.s, tx.a, st);
    assert Contents(tx.s.queue)[0] == stream[tx.a.nxt];
    assert Contents(tx.s.queue[1..]) == Contents(tx.s.queue)[1..] == stream[a'.nxt..];
    forall seg, n | seg in s'.buf && a'.una <= n < a'.nxt && seg.sn == Wrap(n)
      ensures Content(seg) == stream[n]
    {
      if seg in tx.s.buf {
        var i :| 0 <= i < |tx.s.buf| && tx.s.buf[i] == seg;
        assert Offsets(tx.s.buf, tx.s.una)[i] < S.Flight(tx.s);
        WrapSub(n, tx.a.una);
      } else {
        assert seg == S.Admitted(tx.s.queue[0], tx.s.nxt, st);
        WrapSub(tx.a.nxt, n);
      }
    }
  }

  lemma {:induction false} AbsAdmitMeans(a: S.AbsSnd, n: nat)
    ensures var a' := AbsAdmit(a, n);
      && a'.una == a.una && a'.nxt == a.nxt + n
      && (forall k :: k in a.live || a.nxt <= k < a'.nxt ==> k in a'.live)
    decreases n
  {
    if n > 0 {
      AbsAdmitMeans(S.AbsAdmitOne(a), n - 1);
    }
  }

  /** How many segments a flush admits. */
  function AdmitCount(s: S.Snd, cwnd: u32, st: S.Stamp): nat
    decreases |s.queue|
  {
    if S.CanAdmit(s, cwnd) then 1 + AdmitCount(S.AdmitOne(s, st), cwnd, st) else 0
  }

  lemma {:induction false} AdmitStream(tx: Tx, cwnd: u32, st: S.Stamp)
    requires SendsStream(tx) && cwnd <= S.MAX_FLIGHT
    ensures SendsStream(tx.(s := S.Admit(tx.s, cwnd, st), a := AbsAdmit(tx.a, AdmitCount(tx.s, cwnd, st))))
    decreases |tx.s.queue|
  {
    S.CanAdmitMeans(tx.s, cwnd);
    hide SendsStream, Stream, S.CanAdmit, S.AdmitOne, S.Flight;
    if S.CanAdmit(tx.s, cwnd) {
      var tx1 := tx.(s := S.AdmitOne(tx.s, st), a := S.AbsAdmitOne(tx.a));
      AdmitOneStream(tx, st);
      AdmitStream(tx1, cwnd, st);
    }
  }

  /** Header fields and timers may change; numbers and contents may not. */
  lemma RewriteStream(tx: Tx, buf: seq<Segment>)
    requires SendsStream(tx) && |buf| == |tx.s.buf|
    requires forall i :: 0 <= i < |buf| ==> buf[i].sn == tx.s.buf[i].sn && Content(buf[i]) == Content(tx.s.buf[i])
    ensures SendsStream(tx.(s := tx.s.(buf := buf)))
  {
    assert Offsets(buf, tx.s.una) == Offsets(tx.s.buf, tx.s.una);
    var stream := Stream(tx.sent, tx.mss);
    assert Carries(buf, tx.a.una, tx.a.nxt, stream) by {
      forall seg, n | seg in buf && tx.a.una <= n < tx.a.nxt && seg.sn == Wrap(n)
        ensures Content(seg) == stream[n]
      {
        var i :| 0 <= i < |buf| && buf[i] == seg;
        assert tx.s.buf[i] in tx.s.buf;
      }
    }
    hide Carries, Stream;
  }

  lemma TransmitStream(tx: Tx, p: Pass)
    requires SendsStream(tx)
    ensures SendsStream(tx.(s := tx.s.(buf := TransmitAll(tx.s.buf, p))))
  {
    hide SendsStream;
    var buf := TransmitAll(tx.s.buf, p);
    forall i | 0 <= i < |buf| ensures buf[i].sn == tx.s.buf[i].sn && Content(buf[i]) == Content(tx.s.buf[i]) {
      TransmitFields(tx.s.buf[i], p);
    }
    RewriteStream(tx, buf);
  }

  function TxFlush(tx: Tx, cwnd: u32, st: S.Stamp, p: Pass): Tx {
    var s := S.Admit(tx.s, cwnd, st);
    tx.(s := s.(buf := TransmitAll(s.buf, p)), a := AbsAdmit(tx.a, AdmitCount(tx.s, cwnd, st)))
  }

  lemma FlushLink(tx: Tx, rx: Rx, fwd: set<Tagged>, bwd: set<Tagged>, cwnd: u32, st: S.Stamp, p: Pass)
    requires Link(tx, rx, fwd, bwd) && cwnd <= S.MAX_FLIGHT
    ensures Link(TxFlush(tx, cwnd, st, p), rx, fwd, bwd)
    ensures TxFlush(tx, cwnd, st, p).a.nxt >= tx.a.nxt
  {
    var tx' := TxFlush(tx, cwnd, st, p);
    AdmitStream(tx, cwnd, st);
    TransmitStream(tx.(s := S.Admit(tx.s, cwnd, st), a := tx'.a), p);
    assert tx'.a.nxt <= |Stream(tx.sent, tx.mss)|;
    AbsAdmitMeans(tx.a, AdmitCount(tx.s, cwnd, st));
    hide SendsStream, Stream, AbsAdmit, S.Admit, R.Simulates, R.CanMove;
  }

  lemma EmitData(tx: Tx, rx: Rx, fwd: set<Tagged>, bwd: set<Tagged>, out: set<Tagged>)
    requires Link(tx, rx, fwd, bwd) && DataTruthful(tx, out)
    ensures Link(tx, rx, fwd + out, bwd)
  {
    hide SendsStream, DeliversPrefix, Stream;
  }

  function RxFlush(rx: Rx): Rx {
    rx.(acks := [], nums := [])
  }

  lemma EmitAcks(tx: Tx, rx: Rx, fwd: set<Tagged>, bwd: set<Tagged>, out: set<Tagged>)
    requires Link(tx, rx, fwd, bwd) && AcksTruthful(rx.a, out)
    ensures Link(tx, RxFlush(rx), fwd, bwd + out)
  {
    hide SendsStream, Stream;
  }

  /** A segment of the buffer, tagged with its own number, is truthful. */
  lemma BufferTruthful(tx: Tx, seg: Segment)
    requires SendsStream(tx) && seg in tx.s.buf
    ensures var n := Number(seg, tx.s.una, tx.a.una);
      0 <= n < tx.a.nxt && seg.sn == Wrap(n) && Content(seg) == Stream(tx.sent, tx.mss)[n]
  {
    var i :| 0 <= i < |tx.s.buf| && tx.s.buf[i] == seg;
    assert Offsets(tx.s.buf, tx.s.una)[i] < S.Flight(tx.s);
    WrapAdd(tx.a.una, Offset(tx.s.una, seg.sn));
  }
}
