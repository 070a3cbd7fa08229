/** `http_parser_execute` over the body phase, as the program runs it: a run of body bytes
    is taken at once, marked, and reported when it ends or when the buffer does. */
module HttpParser {
  import opened Serial
  import opened HttpNumeral
  import opened HttpBody
  import opened HttpChunked
  import opened HttpReads

  /** No mark is set. */
  const NULL: int := -1

  predicate Marked(mark: int, p: nat, size: nat) {
    NULL <= mark <= p <= size
  }

  /** The marked bytes that were not reported yet. */
  function Pending(data: seq<byte>, mark: int, p: nat): seq<byte>
    requires Marked(mark, p, |data|)
  {
    if mark == NULL then [] else data[mark..p]
  }

  /** Chunk data is being read, or its line end is due. */
  predicate HoldsData(s: State) {
    s.ChunkData? || s.ChunkDataAlmostDone?
  }

  ghost predicate EndsInHeader(before: seq<Event>, trace: seq<Event>) {
    before < trace && trace[|trace| - 1].ChunkHeader?
  }

  /** What this call has reported so far does not end in a body byte. */
  ghost predicate EndsClean(before: seq<Event>, trace: seq<Event>) {
    before <= trace && (|trace| > |before| ==> !trace[|trace| - 1].Byte?)
  }

  predicate TakesBody(s: State) {
    s.ChunkData? || s.BodyIdentity? || s.BodyIdentityEof?
  }

  class Http {
    const head: Head
    var state: State
    var length: u64
    var nread: nat
    var trailing: bool
    var errno: Error
    var trace: seq<Event>

    ghost function View(): Parser
      reads this
    {
      Parser(state, length, nread, trailing, errno)
    }

    ghost predicate Valid()
      reads this
    {
      Sound(head, View())
    }

    constructor (head: Head, start: Parser)
      requires Sound(head, start)
      ensures Valid() && this.head == head && View() == start && trace == []
    {
      this.head := head;
      state, length, nread, trailing, errno := start.state, start.length, start.nread, start.trailing, start.errno;
      trace := [];
    }

    /** The end of a message: the next state, and the callback. */
    method MessageDone()
      modifies `state, `trace
      ensures Stepped(View(), [MessageComplete]) == HttpBody.MessageDone(head, old(View()), [])
      ensures state == (if Persistent(head) && SelfDelimited(head, length) then Start else Dead)
      ensures trace == old(trace) + [MessageComplete]
    {
      KeepAliveMeans(head, length);
      state := NewMessage(head, length);
      trace := trace + [MessageComplete];
    }

    method HeadersDone()
      modifies this
      ensures var s := OnHeadersDone(head, old(View()));
        View() == s.parser && trace == old(trace) + s.events
    {
      state, nread := State.HeadersDone, 0;
      if head.skip {
        MessageDone();
      } else if head.chunked {
        state := ChunkSizeStart;
      } else if head.coded {
        if head.request && !head.lenient {
          errno := InvalidTransferEncoding;
        } else {
          state := BodyIdentityEof;
        }
      } else if length == 0 {
        MessageDone();
      } else if length != UNKNOWN {
        state := BodyIdentity;
      } else if !NeedsEof(head, length) {
        MessageDone();
      } else {
        state := BodyIdentityEof;
      }
    }

    method HeadersAlmostDone(ch: byte)
      modifies this
      ensures var s := OnHeadersAlmostDone(head, old(View()), ch);
        View() == s.parser && trace == old(trace) + s.events
    {
      if ch != LF {
        errno := Strict;
        return;
      }
      if trailing {
        trace := trace + [ChunkComplete];
        MessageDone();
        return;
      }
      if head.coded && head.sized {
        if head.chunked {
          if !head.allowBoth {
            errno := UnexpectedContentLength;
            return;
          }
        } else if !head.lenient {
          errno := UnexpectedContentLength;
          return;
        }
      }
      HeadersDone();
    }

    method ChunkSizeByte(ch: byte)
      modifies this
      ensures OnChunkSize(old(View()), ch) == Stepped(View(), []) && trace == old(trace)
    {
      if ch == CR {
        state := ChunkSizeAlmostDone;
        return;
      }
      var digit := Unhex(ch);
      if digit == -1 {
        if ch == SEMICOLON || ch == SPACE {
          state := ChunkParameters;
          return;
        }
        errno := InvalidChunkSize;
        return;
      }
      var t := Push(16, length, digit);
      if t.None? {
        errno := InvalidContentLength;
        return;
      }
      length := t.value;
    }

    method SizeLineEnd(ch: byte)
      modifies this
      ensures var s := OnSizeLineEnd(old(View()), ch);
        View() == s.parser && trace == old(trace) + s.events
    {
      if ch != LF {
        errno := Strict;
        return;
      }
      nread := 0;
      if length == 0 {
        trailing := true;
        state := HeaderFieldStart;
      } else {
        state := ChunkData;
      }
      trace := trace + [ChunkHeader(length)];
    }

    /** The branches that look at one byte and hold no mark. */
    method Branch(ch: byte)
      requires Live(View()) && Asserts(head, View()) && !TakesBody(state) && !state.ChunkDataAlmostDone?
      modifies this
      ensures var s := Switch(head, old(View()), ch);
        View() == s.parser && trace == old(trace) + s.events
    {
      hide OnHeadersAlmostDone, OnChunkSize, OnSizeLineEnd;
      match state
      case HeadersAlmostDone =>
        HeadersAlmostDone(ch);
      case HeaderFieldStart =>
        if ch == CR {
          state := State.HeadersAlmostDone;
        } else if ch == LF {
          state := State.HeadersAlmostDone;
          HeadersAlmostDone(ch);
        } else {
          state := Trailer;
        }
      case ChunkSizeStart =>
        assert nread == 1 && head.chunked;
        var digit := Unhex(ch);
        if digit == -1 {
          errno := InvalidChunkSize;
        } else {
          length := digit;
          state := ChunkSize;
        }
      case ChunkSize =>
        ChunkSizeByte(ch);
      case ChunkParameters =>
        if ch == CR {
          state := ChunkSizeAlmostDone;
        }
      case ChunkSizeAlmostDone =>
        SizeLineEnd(ch);
      case ChunkDataDone =>
        if ch != LF {
          errno := Strict;
        } else {
          nread := 0;
          state := ChunkSizeStart;
          trace := trace + [ChunkComplete];
        }
      case Dead =>
        if ch != CR && ch != LF {
          errno := ClosedConnection;
        }
    }

    /** The bytes of a body of given length: the last one ends the message. */
    method ReadIdentity(data: seq<byte>, p: nat, mark: int) returns (p': nat, mark': int)
      requires Valid() && Live(View()) && state.BodyIdentity? && p < |data| && Marked(mark, p, |data|)
      modifies this
      ensures Valid() && p < p' && Marked(mark', p', |data|)
      ensures mark' != NULL ==> TakesBody(state) || state.ChunkDataAlmostDone?
      ensures errno == Ok && !state.Trailer?
      ensures old(trace) <= trace && (HoldsData(state) ==> trace == old(trace) && HoldsData(old(state)))
      ensures var r := Run(head, old(View()), data[p..p']);
        && r.parser == View() && r.used == p' - p
        && trace + Data(Pending(data, mark', p')) == old(trace) + Data(Pending(data, mark, p)) + r.events
    {
      BodyDue(head, View());
      hide Run, Data, Sound;
      ghost var was := View();
      mark' := if mark == NULL then p else mark;
      var toRead := Min(length, |data| - p);
      length := length - toRead;
      p' := p + toRead;
      MarkGrows(data, mark, p, p');
      ghost var x, d := Data(Pending(data, mark, p)), Data(data[p..p']);
      if length == 0 {
        FinishRun(head, was, data[p..p']);
        trace := trace + Data(data[mark'..p']);
        mark' := NULL;
        MessageDone();
        assert Data(Pending(data, mark', p')) == [] by {
          NoData();
        }
        Grouped(old(trace), x, d, [MessageComplete]);
      } else {
        PartRun(head, was, data[p..p']);
        Grouped(old(trace), x, d, []);
      }
    }

    /** The branches that take a run of body bytes. */
    method ReadBody(data: seq<byte>, p: nat, mark: int) returns (p': nat, mark': int)
      requires Valid() && Live(View()) && TakesBody(state) && p < |data| && Marked(mark, p, |data|)
      modifies this
      ensures Valid() && p < p' && Marked(mark', p', |data|)
      ensures mark' != NULL ==> TakesBody(state) || state.ChunkDataAlmostDone?
      ensures errno == Ok && !state.Trailer?
      ensures old(trace) <= trace && (HoldsData(state) ==> trace == old(trace) && HoldsData(old(state)))
      ensures var r := Run(head, old(View()), data[p..p']);
        && r.parser == View() && r.used == p' - p
        && trace + Data(Pending(data, mark', p')) == old(trace) + Data(Pending(data, mark, p)) + r.events
    {
      BodyDue(head, View());
      hide Run, Data, Sound;
      if state.BodyIdentity? {
        p', mark' := ReadIdentity(data, p, mark);
        return;
      }
      ghost var was := View();
      mark' := if mark == NULL then p else mark;
      if state.BodyIdentityEof? {
        p' := |data|;
        EofRun(head, was, data[p..p']);
      } else {
        var toRead := Min(length, |data| - p);
        length := length - toRead;
        p' := p + toRead;
        DataRun(head, was, data[p..p']);
        if length == 0 {
          state := ChunkDataAlmostDone;
        }
      }
      MarkGrows(data, mark, p, p');
      Grouped(old(trace), Data(Pending(data, mark, p)), Data(data[p..p']), []);
    }

    /** One turn of the loop: at a byte that stops the parser nothing is consumed. */
    method Turn(data: seq<byte>, p: nat, mark: int) returns (p': nat, mark': int)
      requires Valid() && Live(View()) && p < |data| && Marked(mark, p, |data|)
      requires mark != NULL ==> TakesBody(state) || state.ChunkDataAlmostDone?
      modifies this
      ensures Valid() && Marked(mark', p', |data|)
      ensures mark' != NULL && errno == Ok ==> TakesBody(state) || state.ChunkDataAlmostDone?
      ensures errno == Ok ==> !state.HeadersDone?
      ensures old(trace) <= trace
      ensures HoldsData(state) && errno == Ok ==> (HoldsData(old(state)) && trace == old(trace)) || EndsInHeader(old(trace), trace)
      ensures Stuck(View()) ==>
        && p' == p && Step(head, old(View()), data[p]) == Stepped(View(), [])
        && trace == old(trace) && mark' == mark
      ensures !Stuck(View()) ==> p < p'
      ensures !Stuck(View()) ==>
        var r := Run(head, old(View()), data[p..p']);
        && r.parser == View() && r.used == p' - p
        && trace + Data(Pending(data, mark', p')) == old(trace) + Data(Pending(data, mark, p)) + r.events
    {
      hide Run, Switch;
      ghost var was := View();
      StepSound(head, was, data[p]);
      p', mark' := p, mark;
      if TakesBody(state) {
        p', mark' := ReadBody(data, p, mark);
        return;
      }
      if CountsAsHeader(state) {
        nread := nread + 1;
        if nread > MAX_HEADER {
          errno := HeaderOverflow;
          return;
        }
      }
      if state.ChunkDataAlmostDone? {
        SwitchAlmostDone(head, View(), data[p]);
        if data[p] != CR {
          errno := Strict;
          return;
        }
        state := ChunkDataDone;
        if mark != NULL {
          trace := trace + Data(data[mark..p]);
          mark' := NULL;
        }
      } else {
        ghost var at := View();
        Branch(data[p]);
        EntersData(head, at, data[p]);
        QuietWhenStuck(head, was, data[p]);
        if errno != Ok || state.Trailer? {
          return;
        }
      }
      p' := p + 1;
      One(head, was, data[p]);
      assert data[p..p'] == [data[p]];
    }

    /** The end of the connection, which a call without bytes announces. */
    method AtEof() returns (n: nat)
      requires Valid() && errno == Ok
      modifies this
      ensures Valid() && View() == Eof(old(View())).parser && trace == old(trace) + Eof(old(View())).events
      ensures n == 0 <==> errno == Ok
    {
      n := 0;
      if state.BodyIdentityEof? {
        trace := trace + [MessageComplete];
      } else if !state.Dead? && !state.Start? {
        errno := InvalidEofState;
        n := 1;
      }
    }

    /** The loop over the bytes; what is marked at the end is still to be reported. */
    method Loop(data: seq<byte>) returns (p: nat, mark: int)
      requires Valid() && Live(View())
      modifies this
      ensures Valid() && Marked(mark, p, |data|)
      ensures var r := Run(head, old(View()), data);
        && View() == r.parser && p == r.used
        && old(trace) + r.events == trace + Data(Pending(data, mark, p))
      ensures old(trace) <= trace && (errno != Ok && mark != NULL ==> BadChunkEnd(View()))
      ensures HoldsData(state) ==> EndsClean(old(trace), trace)
    {
      hide Run, Sound, Step, Data, Follows;
      p, mark := 0, NULL;
      ghost var start, seen := View(), [];
      assert data[0..] == data;
      NoData();
      Outset(Run(head, start, data));
      while p < |data| && !state.Start?
        invariant Valid() && Marked(mark, p, |data|) && errno == Ok && !state.Trailer? && !state.HeadersDone?
        invariant mark != NULL ==> TakesBody(state) || state.ChunkDataAlmostDone?
        invariant old(trace) <= trace && (HoldsData(state) ==> EndsClean(old(trace), trace))
        invariant old(trace) + seen == trace + Data(Pending(data, mark, p))
        invariant Follows(Run(head, start, data), seen, p, Run(head, View(), data[p..]))
        decreases |data| - p
      {
        ghost var was, before := View(), trace;
        ghost var x := Data(Pending(data, mark, p));
        var p', mark' := Turn(data, p, mark);
        if errno != Ok || state.Trailer? {
          StuckState(head, was, data[p]);
          StopRun(head, was, data[p..]);
          AtEnd(Run(head, start, data), seen, p, View());
          return p, mark;
        }
        ghost var r := Run(head, was, data[p..p']);
        assert data[p..] == data[p..p'] + data[p'..];
        RunConcat(head, was, data[p..p'], data[p'..]);
        Onward(Run(head, start, data), seen, p, r, Run(head, View(), data[p'..]));
        Regroup(old(trace), seen, before, x, r.events);
        seen := seen + r.events;
        p, mark := p', mark';
      }
      StopRun(head, View(), data[p..]);
      AtEnd(Run(head, start, data), seen, p, View());
    }

    /** One call: the bytes do what they do one at a time, and every body byte that was read
        has been reported when the call returns without an error. */
    method Execute(data: seq<byte>) returns (n: nat)
      requires Valid() && (errno == Ok ==> Live(View()))
      modifies this
      ensures Valid()
      ensures old(errno) != Ok ==> View() == old(View()) && trace == old(trace) && n == 0
      ensures old(errno) == Ok && data == [] ==> View() == Eof(old(View())).parser && trace == old(trace) + Eof(old(View())).events
      ensures old(errno) == Ok && data != [] ==>
        var r := Run(head, old(View()), data);
        && View() == r.parser && n == r.used
        && trace == old(trace) + Reported(r)
        && (trace == old(trace) + r.events <==> !(BadChunkEnd(View()) && r.events != [] && r.events[|r.events| - 1].Byte?))
    {
      hide Run, Sound, Data, Eof, Stripped;
      if errno != Ok {
        return 0;
      }
      if data == [] {
        n := AtEof();
        return;
      }
      ghost var r := Run(head, View(), data);
      var p, mark := Loop(data);
      ghost var x := Pending(data, mark, p);
      NoData();
      assert r.events == trace[|old(trace)|..] + Data(x) by {
        Remainder(old(trace), r.events, trace, Data(x));
      }
      if errno == Ok {
        if mark != NULL {
          trace := trace + Data(data[mark..p]);
        }
      } else if BadChunkEnd(View()) {
        StrippedBytes(trace[|old(trace)|..], x);
        StrippedShort(r.events);
        assert trace == old(trace) + trace[|old(trace)|..];
      }
      n := p;
    }

    /** Several calls.  It stops where the modelled phase ends without an error. */
    method ExecuteAll(pieces: seq<seq<byte>>) returns (i: nat)
      requires Valid() && (errno == Ok ==> Live(View()))
      modifies this
      ensures Valid() && i <= |pieces| && (i < |pieces| ==> errno == Ok && !Live(View()))
      ensures View() == Calls(head, old(View()), pieces[..i]).parser
      ensures trace == old(trace) + Reports(head, old(View()), pieces[..i])
      ensures errno == Ok ==> trace == old(trace) + Calls(head, old(View()), pieces[..i]).events
    {
      hide Run, Sound, Eof, Reported;
      ghost var start, before := View(), trace;
      i := 0;
      assert pieces[..0] == [] && before + [] == before;
      while i < |pieces| && (errno != Ok || Here())
        invariant Valid() && i <= |pieces|
        invariant View() == Calls(head, start, pieces[..i]).parser
        invariant trace == before + Reports(head, start, pieces[..i])
      {
        ghost var was, reports := View(), Reports(head, start, pieces[..i]);
        assert pieces[..i + 1][..i] == pieces[..i];
        var n := Execute(pieces[i]);
        EmptyReported(was);
        ghost var e := if was.errno != Ok then [] else Reported(Call(head, was, pieces[i]));
        assert trace == before + reports + e == before + (reports + e);
        i := i + 1;
      }
      if errno == Ok {
        AllReported(head, start, pieces[..i]);
      }
    }

    predicate Here()
      reads this
    {
      Live(Parser(state, length, nread, trailing, errno))
    }
  }

  lemma EmptyReported(p: Parser)
    ensures Reported(Ran(Eof(p).parser, Eof(p).events, 0)) == Eof(p).events
  {
  }

  /** What is reported after an error depends on the reads: one byte of chunk data and a byte that
      is no line end, in one call and in two. */
  method LossDependsOnReads(head: Head, start: Parser) returns (one: seq<Event>, two: seq<Event>)
    requires Sound(head, start) && start.errno == Ok && start.state.ChunkData? && start.length == 1
    ensures one == [] && two == [Byte(65)]
  {
    var a := new Http(head, start);
    var n := a.Execute([65, 66]);
    one := a.trace;
    var b := new Http(head, start);
    n := b.Execute([65]);
    n := b.Execute([66]);
    two := b.trace;
    BadEnd(head, start);
  }

  lemma BadEnd(h: Head, p: Parser)
    requires Sound(h, p) && p.errno == Ok && p.state.ChunkData? && p.length == 1
    ensures var q := p.(length := 0, state := ChunkDataAlmostDone);
      && Sound(h, q) && Run(h, p, [65]) == Ran(q, [Byte(65)], 1)
      && Run(h, q, [66]) == Ran(q.(errno := Strict), [], 0)
      && Run(h, p, [65, 66]) == Ran(q.(errno := Strict), [Byte(65)], 1)
      && Stripped([Byte(65)]) == [] && Stripped([]) == []
  {
    var q := p.(length := 0, state := ChunkDataAlmostDone);
    assert Step(h, p, 65) == Stepped(q, [Byte(65)]);
    assert Step(h, q, 66) == Fail(q, Strict);
    One(h, p, 65);
    assert Run(h, q, [66]) == Ran(q.(errno := Strict), [], 0);
    RunConcat(h, p, [65], [66]);
    assert [65] + [66] == [65, 66];
    assert [Byte(65)][..0] == [];
  }

  lemma Remainder(t0: seq<Event>, e: seq<Event>, t: seq<Event>, x: seq<Event>)
    requires t0 + e == t + x && t0 <= t
    ensures e == t[|t0|..] + x
  {
    assert e == (t0 + e)[|t0|..];
  }

  /** Chunk data begins with the callback that announces it. */
  lemma EntersData(h: Head, p: Parser, ch: byte)
    requires Live(p) && Asserts(h, p) && !TakesBody(p.state)
    ensures var s := Switch(h, p, ch);
      HoldsData(s.parser.state) && s.parser.errno == Ok ==> |s.events| == 1 && s.events[0].ChunkHeader?
  {
    hide Push, NewMessage, NeedsEof;
  }

  /** Where an error leaves the parser: in a body state it is the missing line end. */
  lemma StuckState(h: Head, p: Parser, ch: byte)
    requires Live(p) && Sound(h, p)
    ensures var q := Step(h, p, ch).parser;
      Stuck(q) ==>
        && (TakesBody(p.state) ==> !Stuck(q))
        && (p.state.ChunkDataAlmostDone? ==> BadChunkEnd(q))
        && (HoldsData(q.state) ==> q.state == p.state)
  {
    hide Push, NewMessage, NeedsEof;
  }

  /** `all` is: first the events `seen` over `used` bytes, then `rest`. */
  ghost predicate Follows(all: Ran, seen: seq<Event>, used: nat, rest: Ran) {
    all == Ran(rest.parser, seen + rest.events, used + rest.used)
  }

  lemma Onward(all: Ran, seen: seq<Event>, used: nat, r: Ran, rest: Ran)
    requires Follows(all, seen, used, Ran(rest.parser, r.events + rest.events, r.used + rest.used))
    ensures Follows(all, seen + r.events, used + r.used, rest)
  {
    assert seen + (r.events + rest.events) == seen + r.events + rest.events;
  }

  lemma Outset(all: Ran)
    ensures Follows(all, [], 0, all)
  {
  }

  lemma AtEnd(all: Ran, seen: seq<Event>, used: nat, p: Parser)
    requires Follows(all, seen, used, Ran(p, [], 0))
    ensures all == Ran(p, seen, used)
  {
    assert seen + [] == seen;
  }

  lemma Regroup(t0: seq<Event>, seen: seq<Event>, t: seq<Event>, x: seq<Event>, e: seq<Event>)
    requires t0 + seen == t + x
    ensures t0 + (seen + e) == t + x + e
  {
    assert t0 + (seen + e) == t0 + seen + e;
  }

  /** Where a run stops: at a byte that stops the parser, or with no more to do. */
  lemma StopRun(h: Head, p: Parser, data: seq<byte>)
    requires Sound(h, p)
    ensures data == [] || !Live(p) ==> Run(h, p, data) == Ran(p, [], 0)
    ensures data != [] && Live(p) && Stuck(Step(h, p, data[0]).parser) ==>
      Run(h, p, data) == Ran(Step(h, p, data[0]).parser, Step(h, p, data[0]).events, 0)
  {
  }

  lemma Grouped(t: seq<Event>, x: seq<Event>, d: seq<Event>, e: seq<Event>)
    ensures t + (x + d) + e + [] == t + x + (d + e)
    ensures t + (x + d) == t + x + d
  {
  }

  lemma BodyDue(h: Head, p: Parser)
    requires Sound(h, p)
    ensures p.state.ChunkData? || p.state.BodyIdentity? ==> p.length > 0
  {
  }

  lemma NoData()
    ensures Data([]) == []
  {
  }

  lemma SwitchAlmostDone(h: Head, p: Parser, ch: byte)
    requires Live(p) && Asserts(h, p) && p.state.ChunkDataAlmostDone?
    ensures Switch(h, p, ch) == if ch != CR then Fail(p, Strict) else Stepped(p.(state := ChunkDataDone), [])
  {
  }

  /** A byte that stops the parser causes no callback. */
  lemma QuietWhenStuck(h: Head, p: Parser, ch: byte)
    requires Live(p) && Sound(h, p)
    ensures Stuck(Step(h, p, ch).parser) ==> Step(h, p, ch).events == []
  {
  }

  /** Marking more bytes adds them to what will be reported. */
  lemma MarkGrows(data: seq<byte>, mark: int, p: nat, p': nat)
    requires Marked(mark, p, |data|) && p <= p' <= |data|
    ensures var m := if mark == NULL then p else mark;
      Data(data[m..p']) == Data(Pending(data, mark, p)) + Data(data[p..p'])
  {
  }
}
