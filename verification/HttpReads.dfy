/** Bodies that arrive in pieces: what `on_body` and the other callbacks see over all calls. */
module HttpReads {
  import opened Serial
  import opened HttpNumeral
  import opened HttpBody
  import opened HttpChunked

  function Flatten(pieces: seq<seq<byte>>): seq<byte> {
    if pieces == [] then [] else pieces[0] + Flatten(pieces[1..])
  }

  /** One call: after an error nothing happens any more, and no bytes mean the end of the connection. */
  function Call(h: Head, p: Parser, piece: seq<byte>): (r: Ran)
    requires Sound(h, p)
    ensures Sound(h, r.parser)
  {
    if p.errno != Ok then Ran(p, [], 0)
    else if piece == [] then Ran(Eof(p).parser, Eof(p).events, 0)
    else Run(h, p, piece)
  }

  /** One call after the other, each on a piece of the bytes. */
  function Calls(h: Head, p: Parser, pieces: seq<seq<byte>>): (r: Ran)
    requires Sound(h, p)
    ensures Sound(h, r.parser)
    decreases |pieces|
  {
    if pieces == [] then Ran(p, [], 0) else
    var n := |pieces| - 1;
    var r := Calls(h, p, pieces[..n]);
    var s := Call(h, r.parser, pieces[n]);
    Ran(s.parser, r.events + s.events, r.used + s.used)
  }

  // ----- what has been reported

  /** The callbacks without the body bytes at their end. */
  function Stripped(events: seq<Event>): seq<Event> {
    if events != [] && events[|events| - 1].Byte? then Stripped(events[..|events| - 1]) else events
  }

  /** A byte after chunk data that is not the line end it should be. */
  predicate BadChunkEnd(p: Parser) {
    p.errno == Strict && p.state.ChunkDataAlmostDone?
  }

  /** What a call reports of what its bytes cause: everything, but where chunk data is not followed by a
      line end not the bytes of that chunk that the call has read. */
  function Reported(r: Ran): seq<Event> {
    if BadChunkEnd(r.parser) then Stripped(r.events) else r.events
  }

  /** What all calls report. */
  function Reports(h: Head, p: Parser, pieces: seq<seq<byte>>): seq<Event>
    requires Sound(h, p)
    decreases |pieces|
  {
    if pieces == [] then [] else
    var n := |pieces| - 1;
    var q := Calls(h, p, pieces[..n]).parser;
    Reports(h, p, pieces[..n]) + (if q.errno != Ok then [] else Reported(Call(h, q, pieces[n])))
  }

  lemma {:induction false} StrippedBytes(e: seq<Event>, d: seq<byte>)
    requires e == [] || !e[|e| - 1].Byte?
    ensures Stripped(e + Data(d)) == e
    decreases |d|
  {
    if d == [] {
      assert e + Data(d) == e;
    } else {
      var n := |d| - 1;
      assert (e + Data(d))[..|e| + n] == e + Data(d[..n]);
      StrippedBytes(e, d[..n]);
    }
  }

  lemma {:induction false} StrippedShort(e: seq<Event>)
    ensures Stripped(e) <= e && (Stripped(e) == e <==> e == [] || !e[|e| - 1].Byte?)
  {
    if e != [] && e[|e| - 1].Byte? {
      StrippedShort(e[..|e| - 1]);
    }
  }

  /** Without an error everything is reported. */
  lemma {:induction false} AllReported(h: Head, p: Parser, pieces: seq<seq<byte>>)
    requires Sound(h, p) && Calls(h, p, pieces).parser.errno == Ok
    ensures Reports(h, p, pieces) == Calls(h, p, pieces).events
    decreases |pieces|
  {
    hide Sound, Run, Eof;
    if pieces != [] {
      AllReported(h, p, pieces[..|pieces| - 1]);
    }
  }

  lemma {:induction false} FlattenConcat(xs: seq<seq<byte>>, ys: seq<seq<byte>>)
    ensures Flatten(xs + ys) == Flatten(xs) + Flatten(ys)
  {
    if xs == [] {
      assert xs + ys == ys;
    } else {
      assert (xs + ys)[1..] == xs[1..] + ys;
      FlattenConcat(xs[1..], ys);
    }
  }

  lemma FlattenLast(pieces: seq<seq<byte>>)
    requires pieces != []
    ensures var n := |pieces| - 1; Flatten(pieces) == Flatten(pieces[..n]) + pieces[n]
  {
    var n := |pieces| - 1;
    FlattenConcat(pieces[..n], [pieces[n]]);
    assert pieces == pieces[..n] + [pieces[n]];
    assert Flatten([pieces[n]]) == pieces[n] + Flatten([]);
  }

  /** A state in which the end of the connection changes nothing. */
  predicate Indifferent(p: Parser) {
    p.errno != Ok || p.state.Dead? || p.state.Start?
  }

  /** Every call without bytes comes where it changes nothing: after an error or between messages. */
  ghost predicate EmptyCallsIdle(h: Head, p: Parser, pieces: seq<seq<byte>>)
    requires Sound(h, p)
  {
    forall i :: 0 <= i < |pieces| ==> IdleAt(h, p, pieces, i)
  }

  ghost predicate IdleAt(h: Head, p: Parser, pieces: seq<seq<byte>>, i: nat)
    requires Sound(h, p) && i < |pieces|
  {
    pieces[i] == [] ==> Indifferent(Run(h, p, Flatten(pieces[..i])).parser)
  }

  lemma IdleFront(h: Head, p: Parser, pieces: seq<seq<byte>>)
    requires Sound(h, p) && pieces != []
    ensures var n := |pieces| - 1;
      EmptyCallsIdle(h, p, pieces) <==> EmptyCallsIdle(h, p, pieces[..n]) && IdleAt(h, p, pieces, n)
  {
    hide Sound, Run, Indifferent;
    var n := |pieces| - 1;
    forall i | 0 <= i < n ensures IdleAt(h, p, pieces[..n], i) <==> IdleAt(h, p, pieces, i) {
      assert pieces[..n][..i] == pieces[..i];
    }
    hide IdleAt;
  }

  lemma {:induction false} ReadsAgree(h: Head, p: Parser, pieces: seq<seq<byte>>)
    requires Sound(h, p) && EmptyCallsIdle(h, p, pieces)
    ensures Calls(h, p, pieces) == Run(h, p, Flatten(pieces))
    decreases |pieces|
  {
    NoBytes(h, p);
    if pieces != [] {
      var n := |pieces| - 1;
      IdleFront(h, p, pieces);
      FlattenLast(pieces);
      ReadsAgree(h, p, pieces[..n]);
      var r := Run(h, p, Flatten(pieces[..n]));
      RunConcat(h, p, Flatten(pieces[..n]), pieces[n]);
      hide Run, Sound;
      assert Call(h, r.parser, pieces[n]) == Run(h, r.parser, pieces[n]) by {
        NotLive(h, r.parser, pieces[n]);
        NoBytes(h, r.parser);
      }
    }
  }

  lemma NotLive(h: Head, p: Parser, data: seq<byte>)
    requires Sound(h, p)
    ensures p.errno != Ok ==> Run(h, p, data) == Ran(p, [], 0)
  {
  }

  lemma {:induction false} NoEofError(h: Head, p: Parser, data: seq<byte>)
    requires Sound(h, p) && p.errno != InvalidEofState
    ensures Run(h, p, data).parser.errno != InvalidEofState
    decreases |data|
  {
    if data != [] && Live(p) {
      StepSound(h, p, data[0]);
      StepErrors(h, p, data[0]);
      hide Step, Sound;
      var s := Step(h, p, data[0]);
      if !Stuck(s.parser) {
        NoEofError(h, s.parser, data[1..]);
      }
    }
  }

  lemma StepErrors(h: Head, p: Parser, ch: byte)
    requires Live(p) && Sound(h, p)
    ensures Step(h, p, ch).parser.errno != InvalidEofState
  {
    hide Push, NewMessage, NeedsEof;
  }

  /** What tells the calls apart from one call on all bytes: an error that bytes never cause, or
      a completion that the bytes have not caused. */
  ghost predicate Differs(r: Ran, s: Ran) {
    || r.parser.errno == InvalidEofState
    || (r.parser.errno == Ok && r.parser.state.BodyIdentityEof? && r.parser == s.parser
        && Completions(r.events) > Completions(s.events))
  }

  lemma {:induction false} ReadsDiffer(h: Head, p: Parser, pieces: seq<seq<byte>>)
    requires Sound(h, p) && !EmptyCallsIdle(h, p, pieces)
    ensures Differs(Calls(h, p, pieces), Run(h, p, Flatten(pieces)))
    decreases |pieces|
  {
    var n := |pieces| - 1;
    IdleFront(h, p, pieces);
    FlattenLast(pieces);
    var front := Flatten(pieces[..n]);
    var r, s := Calls(h, p, pieces[..n]), Run(h, p, front);
    RunConcat(h, p, front, pieces[n]);
    hide Run, Sound;
    if EmptyCallsIdle(h, p, pieces[..n]) {
      ReadsAgree(h, p, pieces[..n]);
      NoBytes(h, s.parser);
      DiffersNow(h, s);
    } else {
      ReadsDiffer(h, p, pieces[..n]);
      DiffersOn(h, r, s, pieces[n]);
    }
  }

  function Joined(r: Ran, s: Ran): Ran {
    Ran(s.parser, r.events + s.events, r.used + s.used)
  }

  lemma DiffersNow(h: Head, s: Ran)
    requires Sound(h, s.parser) && !Indifferent(s.parser)
    ensures Differs(Joined(s, Call(h, s.parser, [])), Joined(s, Ran(s.parser, [], 0)))
  {
    CountsConcat(s.events, Eof(s.parser).events);
    assert s.events + [] == s.events;
    assert Completions([MessageComplete]) == 1;
  }

  lemma DiffersOn(h: Head, r: Ran, s: Ran, piece: seq<byte>)
    requires Sound(h, r.parser) && Sound(h, s.parser) && Differs(r, s)
    ensures Differs(Joined(r, Call(h, r.parser, piece)), Joined(s, Run(h, s.parser, piece)))
  {
    if r.parser.errno == Ok {
      EofRun(h, s.parser, piece);
      DataCounts(piece);
      CountsConcat(s.events, Data(piece));
      CountsConcat(r.events, Call(h, r.parser, piece).events);
    }
  }

  /** Read boundaries matter exactly when a call without bytes comes where the parser heeds it: in
      all other cases the calls have the effect that their bytes have in one call. */
  lemma ReadsIndependent(h: Head, p: Parser, pieces: seq<seq<byte>>)
    requires Sound(h, p) && p.errno != InvalidEofState
    ensures Calls(h, p, pieces) == Run(h, p, Flatten(pieces)) <==> EmptyCallsIdle(h, p, pieces)
  {
    hide Run, Sound;
    if EmptyCallsIdle(h, p, pieces) {
      ReadsAgree(h, p, pieces);
    } else {
      ReadsDiffer(h, p, pieces);
      NoEofError(h, p, Flatten(pieces));
    }
  }

  lemma NoBytes(h: Head, p: Parser)
    requires Sound(h, p)
    ensures Run(h, p, []) == Ran(p, [], 0)
  {
  }

  // ----- what the callbacks were given

  /** The bytes handed to `on_body`, one call after the other. */
  function Delivered(events: seq<Event>): seq<byte> {
    if events == [] then []
    else Content(events[0]) + Delivered(events[1..])
  }

  function Content(e: Event): seq<byte> {
    if e.Byte? then [e.b] else []
  }

  /** How often `on_message_complete` was called. */
  function Completions(events: seq<Event>): nat {
    if events == [] then 0 else (if events[0].MessageComplete? then 1 else 0) + Completions(events[1..])
  }

  lemma {:induction false} CountsConcat(x: seq<Event>, y: seq<Event>)
    ensures Delivered(x + y) == Delivered(x) + Delivered(y)
    ensures Completions(x + y) == Completions(x) + Completions(y)
  {
    hide Content;
    if x == [] {
      assert x + y == y;
    } else {
      assert (x + y)[1..] == x[1..] + y && (x + y)[0] == x[0];
      CountsConcat(x[1..], y);
      assert Delivered(x + y) == Content(x[0]) + (Delivered(x[1..]) + Delivered(y));
    }
  }

  lemma {:induction false} DataCounts(d: seq<byte>)
    ensures Delivered(Data(d)) == d && Completions(Data(d)) == 0
  {
    if d != [] {
      assert Data(d)[1..] == Data(d[1..]);
      DataCounts(d[1..]);
    }
  }

  lemma ChunkCounts(c: Chunk)
    requires |c.data| < UNKNOWN
    ensures Delivered(ChunkEvents(c)) == c.data && Completions(ChunkEvents(c)) == 0
  {
    var header, tail := [ChunkHeader(|c.data|)], [ChunkComplete];
    DataCounts(c.data);
    CountsConcat(header, Data(c.data));
    CountsConcat(header + Data(c.data), tail);
  }

  lemma {:induction false} AllCounts(cs: seq<Chunk>)
    requires forall i :: 0 <= i < |cs| ==> |cs[i].data| < UNKNOWN
    ensures Delivered(AllEvents(cs)) == AllData(cs) && Completions(AllEvents(cs)) == 0
  {
    if cs != [] {
      ChunkCounts(cs[0]);
      AllCounts(cs[1..]);
      CountsConcat(ChunkEvents(cs[0]), AllEvents(cs[1..]));
    }
  }

  lemma WellFormedSizes(cs: seq<Chunk>)
    requires AllWellFormed(cs)
    ensures forall i :: 0 <= i < |cs| ==> |cs[i].data| < UNKNOWN
  {
  }

  /** Fewer bytes cause no more callbacks. */
  lemma EventsGrow(h: Head, p: Parser, a: seq<byte>, b: seq<byte>)
    requires Sound(h, p) && a <= b
    ensures Completions(Run(h, p, a).events) <= Completions(Run(h, p, b).events)
    ensures Delivered(Run(h, p, a).events) <= Delivered(Run(h, p, b).events)
  {
    hide Run, Sound;
    var rest := b[|a|..];
    assert b == a + rest;
    RunConcat(h, p, a, rest);
    var q := Run(h, p, a).parser;
    CountsConcat(Run(h, p, a).events, Run(h, q, rest).events);
  }

  // ----- calls without bytes inside a message

  /** Within a message, where the end of the connection is an error. */
  predicate Inside(p: Parser) {
    p.errno == Ok && !p.state.Start? && !p.state.Dead? && !p.state.BodyIdentityEof?
  }

  /** Once outside, bytes do not lead back in. */
  lemma {:induction false} StaysOutside(h: Head, p: Parser, data: seq<byte>)
    requires Sound(h, p) && !Inside(p)
    ensures !Inside(Run(h, p, data).parser)
    decreases |data|
  {
    if data != [] && Live(p) {
      StepSound(h, p, data[0]);
      var s := Step(h, p, data[0]);
      assert !Inside(s.parser);
      hide Step, Sound;
      if !Stuck(s.parser) {
        StaysOutside(h, s.parser, data[1..]);
      }
    }
  }

  lemma InsideBefore(h: Head, p: Parser, data: seq<byte>, k: nat)
    requires Sound(h, p) && k <= |data| && Inside(Run(h, p, data).parser)
    ensures Inside(Run(h, p, data[..k]).parser)
  {
    hide Run, Sound, Inside;
    assert data == data[..k] + data[k..];
    RunConcat(h, p, data[..k], data[k..]);
    var q := Run(h, p, data[..k]).parser;
    if !Inside(q) {
      StaysOutside(h, q, data[k..]);
    }
  }

  /** A call without bytes comes before `size` bytes have been read. */
  ghost predicate EarlyEmpty(pieces: seq<seq<byte>>, size: nat) {
    exists i :: 0 <= i < |pieces| && pieces[i] == [] && |Flatten(pieces[..i])| < size
  }

  /** The message has `size` bytes: the parser is inside it before and outside after the last. */
  ghost predicate Spans(h: Head, p: Parser, text: seq<byte>, size: nat)
    requires Sound(h, p)
  {
    && |text| <= size
    && forall k :: 0 <= k <= |text| ==>
         var q := Run(h, p, text[..k]).parser;
         if k < size then Inside(q) else Indifferent(q)
  }

  lemma SpansAt(h: Head, p: Parser, pieces: seq<seq<byte>>, size: nat, i: nat)
    requires Sound(h, p) && i <= |pieces| && Spans(h, p, Flatten(pieces), size)
    ensures var a := Flatten(pieces[..i]);
      |a| <= size && if |a| < size then Inside(Run(h, p, a).parser) else Indifferent(Run(h, p, a).parser)
  {
    hide Run, Sound, Inside, Indifferent;
    var a, text := Flatten(pieces[..i]), Flatten(pieces);
    FlattenConcat(pieces[..i], pieces[i..]);
    assert pieces == pieces[..i] + pieces[i..];
    assert text[..|a|] == a;
  }

  /** Inside a message the end of the connection is an error, and the only way in which reads matter. */
  lemma EarlyEof(h: Head, p: Parser, pieces: seq<seq<byte>>, size: nat)
    requires Sound(h, p) && p.errno == Ok && Spans(h, p, Flatten(pieces), size)
    ensures EarlyEmpty(pieces, size) ==> Calls(h, p, pieces).parser.errno == InvalidEofState
    ensures !EarlyEmpty(pieces, size) ==> Calls(h, p, pieces) == Run(h, p, Flatten(pieces))
  {
    hide Run, Sound, Spans;
    if EarlyEmpty(pieces, size) {
      var i :| 0 <= i < |pieces| && pieces[i] == [] && |Flatten(pieces[..i])| < size;
      SpansAt(h, p, pieces, size, i);
      assert !IdleAt(h, p, pieces, i);
      ReadsDiffer(h, p, pieces);
      SpansAt(h, p, pieces, size, |pieces|);
      assert pieces[..|pieces|] == pieces;
    } else {
      forall i | 0 <= i < |pieces| ensures IdleAt(h, p, pieces, i) {
        SpansAt(h, p, pieces, size, i);
      }
      ReadsAgree(h, p, pieces);
    }
  }

  /** Chunked decoding does not depend on read boundaries.  However the bytes of a chunked
      message are cut into calls, `on_body` is given the data of the chunks, in order,
      and `on_message_complete` is called once; no call before the one that has the last
      byte completes the message, and what those calls deliver is a prefix of the data.
      Only a call without bytes before the message is complete makes it fail, always. */
  lemma ChunkedDecoding(h: Head, p: Parser, cs: seq<Chunk>, last: Chunk, pieces: seq<seq<byte>>)
    requires ExpectsChunks(h, p) && Body(cs, last)
    requires Flatten(pieces) <= Message(cs, last)
    ensures var r := Calls(h, p, pieces);
      if EarlyEmpty(pieces, |Message(cs, last)|) then
        r.parser.errno == InvalidEofState
      else if Flatten(pieces) == Message(cs, last) then
        && r.parser.errno == Ok && r.used == |Message(cs, last)| && r.parser.state == (if Persistent(h) then Start else Dead)
        && Delivered(r.events) == AllData(cs) && Completions(r.events) == 1
      else
        r.parser.errno == Ok && Delivered(r.events) <= AllData(cs) && Completions(r.events) == 0
  {
    hide Run, Sound, Unfinished, WellFormed, EarlyEmpty, Inside;
    var text := Flatten(pieces);
    ChunkedSpans(h, p, cs, last, text);
    SpansAt(h, p, pieces, |Message(cs, last)|, |pieces|);
    assert pieces[..|pieces|] == pieces;
    EarlyEof(h, p, pieces, |Message(cs, last)|);
    WellFormedSizes(cs);
    AllCounts(cs);
    EndCounts();
    if text == Message(cs, last) {
      MessageRun(h, p, cs, last);
      CountsConcat(AllEvents(cs), [ChunkHeader(0), ChunkComplete, MessageComplete]);
    } else {
      UnfinishedRun(h, p, cs, last);
      CountsConcat(AllEvents(cs), [ChunkHeader(0)]);
      assert text <= Unfinished(cs, last);
      EventsGrow(h, p, text, Unfinished(cs, last));
      InsideMeans(Run(h, p, text).parser);
    }
  }

  lemma InsideMeans(p: Parser)
    ensures Inside(p) ==> p.errno == Ok
  {
  }

  lemma ChunkedSpans(h: Head, p: Parser, cs: seq<Chunk>, last: Chunk, text: seq<byte>)
    requires ExpectsChunks(h, p) && Body(cs, last) && text <= Message(cs, last)
    ensures Spans(h, p, text, |Message(cs, last)|)
  {
    hide Run, Sound, Unfinished, WellFormed, Inside, Indifferent;
    var all, most := Message(cs, last), Unfinished(cs, last);
    UnfinishedRun(h, p, cs, last);
    MessageRun(h, p, cs, last);
    assert Inside(Run(h, p, most).parser) by {
      InsideState(Run(h, p, most).parser);
    }
    assert Indifferent(Run(h, p, all).parser) by {
      OutsideState(Run(h, p, all).parser);
    }
    forall k | 0 <= k <= |text|
      ensures if k < |all| then Inside(Run(h, p, text[..k]).parser) else Indifferent(Run(h, p, text[..k]).parser)
    {
      if k < |all| {
        assert text[..k] == most[..k];
        InsideBefore(h, p, most, k);
      } else {
        assert text[..k] == all;
      }
    }
  }

  lemma InsideState(p: Parser)
    requires p.errno == Ok && (p.state.HeadersAlmostDone? || p.state.BodyIdentity?)
    ensures Inside(p)
  {
  }

  lemma OutsideState(p: Parser)
    requires p.state.Start? || p.state.Dead?
    ensures Indifferent(p)
  {
  }

  lemma EndCounts()
    ensures Delivered([ChunkHeader(0)]) == [] && Completions([ChunkHeader(0)]) == 0
    ensures Delivered([ChunkHeader(0), ChunkComplete, MessageComplete]) == []
    ensures Completions([ChunkHeader(0), ChunkComplete, MessageComplete]) == 1
  {
    var e := [ChunkHeader(0), ChunkComplete, MessageComplete];
    assert e[1..] == [ChunkComplete, MessageComplete] && e[1..][1..] == [MessageComplete];
    assert Completions([MessageComplete]) == 1 && Delivered([MessageComplete]) == [];
    assert Completions([ChunkComplete, MessageComplete]) == 1;
  }

  // ----- a body of given length

  /** Body bytes, fewer than are due. */
  lemma {:induction false} PartRun(h: Head, p: Parser, d: seq<byte>)
    requires Sound(h, p) && p.errno == Ok && p.state.BodyIdentity? && |d| < p.length
    ensures Run(h, p, d) == Ran(p.(length := p.length - |d|), Data(d), |d|)
    decreases |d|
  {
    if d != [] {
      var q := p.(length := p.length - 1);
      assert Step(h, p, d[0]) == Stepped(q, [Byte(d[0])]);
      assert Data(d) == [Byte(d[0])] + Data(d[1..]);
      PartRun(h, q, d[1..]);
    }
  }

  /** Body bytes, exactly those that are due. */
  lemma FinishRun(h: Head, p: Parser, d: seq<byte>)
    requires Sound(h, p) && p.errno == Ok && p.state.BodyIdentity? && |d| == p.length
    ensures var s := if Persistent(h) && SelfDelimited(h, 0) then Start else Dead;
      Run(h, p, d) == Ran(p.(length := 0, state := s), Data(d) + [MessageComplete], |d|)
  {
    hide Run;
    KeepAliveMeans(h, 0);
    var k := |d| - 1;
    PartRun(h, p, d[..k]);
    One(h, p.(length := 1), d[k]);
    RunConcat(h, p, d[..k], [d[k]]);
    assert d[..k] + [d[k]] == d;
    assert Data(d) == Data(d[..k]) + [Byte(d[k])];
  }

  /** Body bytes up to the end of the connection. */
  lemma {:induction false} EofRun(h: Head, p: Parser, d: seq<byte>)
    requires Sound(h, p) && p.errno == Ok && p.state.BodyIdentityEof?
    ensures Run(h, p, d) == Ran(p, Data(d), |d|)
    decreases |d|
  {
    if d != [] {
      assert Step(h, p, d[0]) == Stepped(p, [Byte(d[0])]);
      assert Data(d) == [Byte(d[0])] + Data(d[1..]);
      EofRun(h, p, d[1..]);
    }
  }

  /** The header section of a message with a `Content-Length` is about to end. */
  predicate ExpectsLength(h: Head, p: Parser) {
    && Sound(h, p) && p.errno == Ok && p.state.HeadersAlmostDone? && !p.trailing && p.nread < MAX_HEADER
    && !h.chunked && !h.coded && !h.skip && p.length != UNKNOWN
  }

  lemma PartialBody(h: Head, p: Parser, d: seq<byte>)
    requires ExpectsLength(h, p) && |d| < p.length
    ensures Run(h, p, [LF] + d) == Ran(p.(state := BodyIdentity, nread := 0, length := p.length - |d|), Data(d), 1 + |d|)
  {
    hide Run;
    var q := p.(state := BodyIdentity, nread := 0);
    One(h, p, LF);
    PartRun(h, q, d);
    RunConcat(h, p, [LF], d);
    assert [] + Data(d) == Data(d);
  }

  lemma WholeBody(h: Head, p: Parser, d: seq<byte>)
    requires ExpectsLength(h, p) && |d| == p.length
    ensures var r := Run(h, p, [LF] + d);
      && r.events == Data(d) + [MessageComplete] && r.used == 1 + |d|
      && r.parser.errno == Ok && r.parser.nread == 0 && r.parser.state == (if Persistent(h) then Start else Dead)
  {
    hide Run;
    if d == [] {
      One(h, p, LF);
      assert [LF] + d == [LF] && Data(d) + [MessageComplete] == [MessageComplete];
    } else {
      One(h, p, LF);
      FinishRun(h, p.(state := BodyIdentity, nread := 0), d);
      RunConcat(h, p, [LF], d);
      assert [] + (Data(d) + [MessageComplete]) == Data(d) + [MessageComplete];
    }
  }

  lemma LengthSpans(h: Head, p: Parser, d: seq<byte>, text: seq<byte>)
    requires ExpectsLength(h, p) && |d| == p.length && text <= [LF] + d
    ensures Spans(h, p, text, 1 + |d|)
  {
    hide Run, Sound, Inside, Indifferent;
    var all := [LF] + d;
    WholeBody(h, p, d);
    OutsideState(Run(h, p, all).parser);
    forall k | 0 <= k <= |text|
      ensures if k < |all| then Inside(Run(h, p, text[..k]).parser) else Indifferent(Run(h, p, text[..k]).parser)
    {
      if k == |all| {
        assert text[..k] == all;
      } else if k == 0 {
        assert text[..k] == [];
        NoBytes(h, p);
        InsideState(p);
      } else {
        assert text[..k] == [LF] + d[..k - 1];
        PartialBody(h, p, d[..k - 1]);
        InsideState(Run(h, p, text[..k]).parser);
      }
    }
  }

  /** A body of declared length n, cut into calls in any way: `on_body` is given exactly the n bytes
      after the header section, and the message completes with the last of them and not before.  Only a
      call without bytes before that makes it fail, always. */
  lemma LengthDecoding(h: Head, p: Parser, d: seq<byte>, k: nat, pieces: seq<seq<byte>>)
    requires ExpectsLength(h, p) && |d| == p.length && k <= |d| && Flatten(pieces) == [LF] + d[..k]
    ensures var r := Calls(h, p, pieces);
      if EarlyEmpty(pieces, 1 + |d|) then
        r.parser.errno == InvalidEofState
      else
        && r.parser.errno == Ok && r.used == 1 + k
        && Delivered(r.events) == d[..k]
        && Completions(r.events) == (if k == |d| then 1 else 0)
        && (if k == |d| then r.parser.state == (if Persistent(h) then Start else Dead)
            else r.parser.state.BodyIdentity? && r.parser.length == |d| - k)
  {
    hide Run, Sound, EarlyEmpty, Spans;
    LengthSpans(h, p, d, [LF] + d[..k]);
    EarlyEof(h, p, pieces, 1 + |d|);
    DataCounts(d[..k]);
    if k == |d| {
      assert d[..k] == d;
      WholeBody(h, p, d);
      CountsConcat(Data(d), [MessageComplete]);
      assert Completions([MessageComplete]) == 1 && Delivered([MessageComplete]) == [];
    } else {
      PartialBody(h, p, d[..k]);
    }
  }
}
