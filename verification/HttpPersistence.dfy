/** What follows a message on its connection: another message, or nothing. */
module HttpPersistence {
  import opened Serial
  import opened HttpNumeral
  import opened HttpBody
  import opened HttpChunked
  import opened HttpReads

  /** No message is under way. */
  predicate Between(s: State) {
    s.Start? || s.Dead?
  }

  // ----- the version

  /** HTTP/1.1 or later, in the order of versions. */
  predicate AtLeast11(h: Head) {
    h.major > 1 || (h.major == 1 && h.minor >= 1)
  }

  /** Section 6.3 of RFC 7230. */
  predicate StandardPersistence(h: Head) {
    if AtLeast11(h) then !h.close else h.keepAlive
  }

  /** The parser's test for the version looks at the minor number alone once the major is not zero.  It
      differs from the standard exactly for a version such as 2.0 whose head says both or neither of
      close and keep-alive. */
  lemma VersionTest(h: Head)
    ensures (Persistent(h) <==> StandardPersistence(h)) <==> !(h.major > 1 && h.minor == 0 && h.close == h.keepAlive)
  {
  }

  // ----- the end of a message

  lemma CountOne(e: Event, f: Event)
    ensures Completions([]) == 0 && Completions([e]) == (if e.MessageComplete? then 1 else 0)
    ensures Completions([e] + [f]) == Completions([e]) + Completions([f])
  {
    CountsConcat([e], [f]);
    assert [e][1..] == [];
  }

  /** A byte ends the message if and only if it completes it; the state is then as the head demands. */
  lemma StepCompletes(h: Head, p: Parser, ch: byte)
    requires Live(p) && Sound(h, p) && !Between(p.state)
    ensures var s := Step(h, p, ch);
      && Completions(s.events) == (if Between(s.parser.state) then 1 else 0)
      && (Between(s.parser.state) ==> (s.parser.state.Start? <==> Persistent(h) && SelfDelimited(h, 0)))
  {
    hide Completions, Persistent, SelfDelimited, Unhex, Push, NewMessage, NeedsEof;
    CountOne(ChunkComplete, MessageComplete);
    CountOne(MessageComplete, MessageComplete);
    CountOne(Byte(ch), MessageComplete);
    CountOne(ChunkHeader(p.length), MessageComplete);
    EndsAs(h, p.length);
    EndsAs(h, 0);
    assert [] + [MessageComplete] == [MessageComplete];
  }

  /** The state after a message, for the lengths at which one can end. */
  lemma EndsAs(h: Head, length: u64)
    ensures SelfDelimited(h, length) ==>
      SelfDelimited(h, 0) && NewMessage(h, length) == (if Persistent(h) then Start else Dead)
    ensures NewMessage(h, 0) == (if Persistent(h) && SelfDelimited(h, 0) then Start else Dead)
    ensures h.chunked || h.skip || (length == 0 && !h.coded) || !NeedsEof(h, length) ==> SelfDelimited(h, length)
  {
    KeepAliveMeans(h, length);
    KeepAliveMeans(h, 0);
    NeedsEofMeans(h, length);
  }

  lemma {:induction false} BetweenStays(h: Head, p: Parser, data: seq<byte>)
    requires Sound(h, p) && Between(p.state)
    ensures Run(h, p, data).parser.state == p.state && Completions(Run(h, p, data).events) == 0
    decreases |data|
  {
    if data != [] && Live(p) {
      var s := Step(h, p, data[0]);
      assert s.parser.state == p.state && s.events == [];
      StepSound(h, p, data[0]);
      if !Stuck(s.parser) {
        BetweenStays(h, s.parser, data[1..]);
        assert [] + Run(h, s.parser, data[1..]).events == Run(h, s.parser, data[1..]).events;
      }
    }
  }

  /** Whatever bytes come after the header section: a message completes at most once, it has completed
      exactly when the parser is between messages, and the parser is then ready for another message if and
      only if the head lets the connection persist and the message did not need its end. */
  lemma {:induction false} RunCompletes(h: Head, p: Parser, data: seq<byte>)
    requires Sound(h, p) && !Between(p.state)
    ensures var r := Run(h, p, data);
      && Completions(r.events) == (if Between(r.parser.state) then 1 else 0)
      && (Between(r.parser.state) ==> (r.parser.state.Start? <==> Persistent(h) && SelfDelimited(h, 0)))
    decreases |data|
  {
    hide Step, Sound, Persistent, SelfDelimited;
    if data != [] && Live(p) {
      StepCompletes(h, p, data[0]);
      StepSound(h, p, data[0]);
      var s := Step(h, p, data[0]);
      if !Stuck(s.parser) {
        CountsConcat(s.events, Run(h, s.parser, data[1..]).events);
        if Between(s.parser.state) {
          BetweenStays(h, s.parser, data[1..]);
        } else {
          RunCompletes(h, s.parser, data[1..]);
        }
      }
    }
  }

  // ----- after the last message

  /** How many line ends the bytes start with. */
  function LineEnds(data: seq<byte>): (k: nat)
    ensures k <= |data| && forall i :: 0 <= i < k ==> data[i] == CR || data[i] == LF
    ensures k < |data| ==> data[k] != CR && data[k] != LF
  {
    if data != [] && (data[0] == CR || data[0] == LF) then 1 + LineEnds(data[1..]) else 0
  }

  /** On a connection that does not persist, line ends are skipped and any other byte is an error; only
      the limit on what counts as header can come before it. */
  lemma {:induction false} DeadRun(h: Head, p: Parser, data: seq<byte>)
    requires Sound(h, p) && p.errno == Ok && p.state.Dead?
    ensures var r, k, room := Run(h, p, data), LineEnds(data), MAX_HEADER - p.nread;
      && r.events == [] && r.parser.state.Dead?
      && r.parser.errno == (if Min(k, room) == |data| then Ok else if room <= k then HeaderOverflow else ClosedConnection)
      && r.used == Min(k, room)
    decreases |data|
  {
    if data != [] {
      var s := Step(h, p, data[0]);
      StepSound(h, p, data[0]);
      if !Stuck(s.parser) {
        DeadRun(h, s.parser, data[1..]);
        assert [] + Run(h, s.parser, data[1..]).events == Run(h, s.parser, data[1..]).events;
      }
    }
  }

  /** The bytes of a message and of what follows it. */
  lemma AfterMessage(h: Head, p: Parser, text: seq<byte>, more: seq<byte>)
    requires Sound(h, p) && !Between(p.state)
    requires Run(h, p, text).parser.errno == Ok && Completions(Run(h, p, text).events) == 1 && Run(h, p, text).used == |text|
    requires Run(h, p, text).parser.nread < MAX_HEADER
    requires more != [] && more[0] != CR && more[0] != LF
    ensures var r := Run(h, p, text + more);
      && r.used == |text| && Completions(r.events) == 1
      && if Persistent(h) && SelfDelimited(h, 0) then r.parser.errno == Ok && r.parser.state.Start?
         else r.parser.errno == ClosedConnection
  {
    hide Run, Sound, Persistent, SelfDelimited, Completions;
    RunCompletes(h, p, text);
    RunConcat(h, p, text, more);
    var q := Run(h, p, text).parser;
    CountsConcat(Run(h, p, text).events, Run(h, q, more).events);
    BetweenStays(h, q, more);
    if q.state.Start? {
      NoneTaken(h, q, more);
    } else {
      DeadRun(h, q, more);
    }
  }

  lemma NoneTaken(h: Head, p: Parser, data: seq<byte>)
    requires Sound(h, p) && p.state.Start?
    ensures Run(h, p, data) == Ran(p, [], 0)
  {
  }

  /** A whole chunked message and the first bytes of another: they are left for the next message exactly when
      the head lets the connection persist, and are an error otherwise. */
  lemma ChunkedThenMore(h: Head, p: Parser, cs: seq<Chunk>, last: Chunk, more: seq<byte>)
    requires ExpectsChunks(h, p) && Body(cs, last) && more != [] && more[0] != CR && more[0] != LF
    ensures var r := Run(h, p, Message(cs, last) + more);
      && r.used == |Message(cs, last)| && Completions(r.events) == 1
      && if Persistent(h) then r.parser.errno == Ok && r.parser.state.Start? else r.parser.errno == ClosedConnection
  {
    hide Run, Persistent, Message, Body, Completions, Sound;
    MessageRun(h, p, cs, last);
    RunCompletes(h, p, Message(cs, last));
    AfterMessage(h, p, Message(cs, last), more);
  }

  /** So it is after a body of declared length. */
  lemma LengthThenMore(h: Head, p: Parser, d: seq<byte>, more: seq<byte>)
    requires ExpectsLength(h, p) && |d| == p.length && more != [] && more[0] != CR && more[0] != LF
    ensures var r := Run(h, p, [LF] + d + more);
      && r.used == 1 + |d| && Delivered(r.events) == d && Completions(r.events) == 1
      && if Persistent(h) then r.parser.errno == Ok && r.parser.state.Start? else r.parser.errno == ClosedConnection
  {
    hide Run, Persistent, Completions, Sound, Delivered;
    WholeBody(h, p, d);
    RunCompletes(h, p, [LF] + d);
    AfterMessage(h, p, [LF] + d, more);
    var q := Run(h, p, [LF] + d).parser;
    RunConcat(h, p, [LF] + d, more);
    BetweenStays(h, q, more);
    CountsConcat(Run(h, p, [LF] + d).events, Run(h, q, more).events);
    DataCounts(d);
    CountsConcat(Data(d), [MessageComplete]);
    NothingMore(h, q, more);
    NoDelivery();
  }

  lemma NoDelivery()
    ensures Delivered([MessageComplete]) == [] && Delivered([]) == []
  {
    assert [MessageComplete][1..] == [];
  }

  lemma NothingMore(h: Head, p: Parser, data: seq<byte>)
    requires Sound(h, p) && p.errno == Ok && Between(p.state)
    ensures Run(h, p, data).events == []
  {
    if p.state.Start? {
      NoneTaken(h, p, data);
    } else {
      DeadRun(h, p, data);
    }
  }

  /** And after a message without a body. */
  lemma NothingThenMore(h: Head, p: Parser, more: seq<byte>)
    requires Sound(h, p) && p.errno == Ok && p.state.HeadersAlmostDone? && !p.trailing && p.nread < MAX_HEADER
    requires Between(Step(h, p, LF).parser.state) && more != [] && more[0] != CR && more[0] != LF
    ensures var r := Run(h, p, [LF] + more);
      && r.used == 1 && Delivered(r.events) == [] && Completions(r.events) == 1
      && if Persistent(h) then r.parser.errno == Ok && r.parser.state.Start? else r.parser.errno == ClosedConnection
  {
    HeadCompletes(h, p);
    hide Run, Persistent, Sound, Delivered, Completions, Step, SelfDelimited;
    One(h, p, LF);
    RunCompletes(h, p, [LF]);
    AfterMessage(h, p, [LF], more);
    var q := Run(h, p, [LF]).parser;
    RunConcat(h, p, [LF], more);
    NothingMore(h, q, more);
    CountsConcat([MessageComplete], []);
    NoDelivery();
  }

  lemma HeadCompletes(h: Head, p: Parser)
    requires Sound(h, p) && p.errno == Ok && p.state.HeadersAlmostDone? && !p.trailing && p.nread < MAX_HEADER
    requires Between(Step(h, p, LF).parser.state)
    ensures SelfDelimited(h, 0) && Step(h, p, LF).parser.errno == Ok && Step(h, p, LF).parser.nread == 0
    ensures Step(h, p, LF).events == [MessageComplete]
  {
    NeedsEofMeans(h, p.length);
    hide NeedsEof, NewMessage;
  }
}
