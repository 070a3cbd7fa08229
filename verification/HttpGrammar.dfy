/** The chunked messages that the parser accepts are exactly those of the coding: the converse of what
    `HttpChunked` says of a well-formed message. */
module HttpGrammar {
  import opened Serial
  import opened HttpNumeral
  import opened HttpBody
  import opened HttpChunked
  import opened HttpReads
  import opened HttpPersistence

  /** The chunks read so far, and what has been read of the next: digits, extension and data. */
  datatype Draft = Draft(cs: seq<Chunk>, digits: seq<byte>, extension: seq<byte>, data: seq<byte>)

  function Current(w: Draft): Chunk {
    Chunk(w.digits, w.extension, w.data)
  }

  /** What of the next chunk, or of the end, has been read in a state. */
  function Partial(s: State, w: Draft): seq<byte> {
    match s
    case ChunkSize | ChunkParameters => w.digits + w.extension
    case ChunkSizeAlmostDone => w.digits + w.extension + [CR]
    case ChunkData | ChunkDataAlmostDone | HeaderFieldStart => SizeLine(Current(w)) + w.data
    case ChunkDataDone | HeadersAlmostDone => SizeLine(Current(w)) + w.data + [CR]
    case _ => []
  }

  function Text(s: State, w: Draft): seq<byte> {
    [LF] + CodedAll(w.cs) + Partial(s, w)
  }

  ghost predicate Hex(ds: seq<byte>) {
    forall i :: 0 <= i < |ds| ==> Unhex(ds[i]) >= 0
  }

  /** The size line so far, and the value of its digits. */
  ghost predicate Line(w: Draft, value: int) {
    && w.digits != [] && Hex(w.digits) && Extension(w.extension)
    && Value(16, HexDigits(w.digits)) == value < UNKNOWN - 15
  }

  ghost predicate Fits(p: Parser, w: Draft) {
    && AllWellFormed(w.cs)
    && match p.state
       case ChunkSizeStart => true
       case ChunkSize => Line(w, p.length) && w.extension == [] && p.nread == |w.digits|
       case ChunkParameters => Line(w, p.length) && w.extension != [] && p.nread == |w.digits| + |w.extension|
       case ChunkSizeAlmostDone => Line(w, p.length) && p.nread == |w.digits| + |w.extension| + 1
       case ChunkData => Line(w, |w.data| + p.length) && |w.digits| + |w.extension| + 2 <= MAX_HEADER
       case ChunkDataAlmostDone | ChunkDataDone =>
         Line(w, |w.data|) && |w.digits| + |w.extension| + 2 <= MAX_HEADER && w.data != []
       case HeaderFieldStart | HeadersAlmostDone =>
         p.trailing && Line(w, 0) && |w.digits| + |w.extension| + 2 <= MAX_HEADER && w.data == []
       case _ => false
  }

  lemma {:induction false} CodedAppend(cs: seq<Chunk>, c: Chunk)
    ensures CodedAll(cs + [c]) == CodedAll(cs) + Coded(c)
    decreases |cs|
  {
    hide Coded;
    if cs == [] {
      assert [] + [c] == [c] && [c][1..] == [];
    } else {
      assert (cs + [c])[1..] == cs[1..] + [c];
      CodedAppend(cs[1..], c);
    }
  }

  // ----- one byte

  lemma FirstDigit(ch: byte)
    requires Unhex(ch) >= 0
    ensures Value(16, HexDigits([ch])) == Unhex(ch)
  {
    ValueStep(16, [], Unhex(ch));
    assert HexDigits([ch]) == [] + [Unhex(ch)];
  }

  lemma NextDigit(ds: seq<byte>, ch: byte)
    requires Hex(ds) && Unhex(ch) >= 0
    ensures Hex(ds + [ch]) && Value(16, HexDigits(ds + [ch])) == 16 * Value(16, HexDigits(ds)) + Unhex(ch)
  {
    ValueStep(16, HexDigits(ds), Unhex(ch));
    assert HexDigits(ds + [ch]) == HexDigits(ds) + [Unhex(ch)];
  }

  lemma PushBound(acc: u64, digit: nat)
    requires digit < 16 && Push(16, acc, digit).Some?
    ensures Push(16, acc, digit).value == 16 * acc + digit < UNKNOWN - 15
  {
    PushExact(16, acc, digit);
  }

  /** A byte that is accepted within a message continues the text. */
  ghost predicate Continues(h: Head, p: Parser, w: Draft, ch: byte, w': Draft)
    requires Live(p) && Sound(h, p)
  {
    var q := Step(h, p, ch).parser;
    Fits(q, w') && Text(q.state, w') == Text(p.state, w) + [ch]
  }

  /** The parser goes on within the message. */
  predicate GoesOn(h: Head, p: Parser, ch: byte)
    requires Live(p) && Sound(h, p)
  {
    var q := Step(h, p, ch).parser;
    q.errno == Ok && !q.state.Trailer? && !Between(q.state)
  }

  lemma SizeStartStep(h: Head, p: Parser, w: Draft, ch: byte) returns (w': Draft)
    requires Live(p) && Sound(h, p) && p.state.ChunkSizeStart? && Fits(p, w) && GoesOn(h, p, ch)
    ensures Continues(h, p, w, ch, w')
  {
    w' := Draft(w.cs, [ch], [], []);
    FirstDigit(ch);
    hide Unhex;
    assert Text(ChunkSize, w') == Text(ChunkSizeStart, w) + [ch];
  }

  lemma SizeStep(h: Head, p: Parser, w: Draft, ch: byte) returns (w': Draft)
    requires Live(p) && Sound(h, p) && p.state.ChunkSize? && Fits(p, w) && GoesOn(h, p, ch)
    ensures Continues(h, p, w, ch, w')
  {
    hide Unhex, Push, Value, HexDigits, AllWellFormed;
    var q := Step(h, p, ch).parser;
    if q.state.ChunkSize? {
      w' := w.(digits := w.digits + [ch]);
      PushBound(p.length, Unhex(ch));
      NextDigit(w.digits, ch);
      assert Text(q.state, w') == Text(p.state, w) + [ch];
    } else if q.state.ChunkParameters? {
      w' := w.(extension := [ch]);
      assert Text(q.state, w') == Text(p.state, w) + [ch];
    } else {
      w' := w;
      assert Text(q.state, w') == Text(p.state, w) + [ch];
    }
  }

  lemma ParametersStep(h: Head, p: Parser, w: Draft, ch: byte) returns (w': Draft)
    requires Live(p) && Sound(h, p) && p.state.ChunkParameters? && Fits(p, w) && GoesOn(h, p, ch)
    ensures Continues(h, p, w, ch, w')
  {
    hide Value, HexDigits, AllWellFormed;
    var q := Step(h, p, ch).parser;
    w' := if ch == CR then w else w.(extension := w.extension + [ch]);
    assert Text(q.state, w') == Text(p.state, w) + [ch];
  }

  lemma LineEndStep(h: Head, p: Parser, w: Draft, ch: byte) returns (w': Draft)
    requires Live(p) && Sound(h, p) && p.state.ChunkSizeAlmostDone? && Fits(p, w) && GoesOn(h, p, ch)
    ensures Continues(h, p, w, ch, w')
  {
    hide Value, HexDigits, AllWellFormed;
    var q := Step(h, p, ch).parser;
    w' := w.(data := []);
    assert Text(q.state, w') == Text(p.state, w) + [ch];
  }

  lemma DataStep(h: Head, p: Parser, w: Draft, ch: byte) returns (w': Draft)
    requires Live(p) && Sound(h, p) && p.state.ChunkData? && Fits(p, w) && GoesOn(h, p, ch)
    ensures Continues(h, p, w, ch, w')
  {
    hide Value, HexDigits, AllWellFormed;
    var q := Step(h, p, ch).parser;
    w' := w.(data := w.data + [ch]);
    assert Text(q.state, w') == Text(p.state, w) + [ch];
  }

  lemma DataEndStep(h: Head, p: Parser, w: Draft, ch: byte) returns (w': Draft)
    requires Live(p) && Sound(h, p) && p.state.ChunkDataAlmostDone? && Fits(p, w) && GoesOn(h, p, ch)
    ensures Continues(h, p, w, ch, w')
  {
    hide Value, HexDigits, AllWellFormed;
    var q := Step(h, p, ch).parser;
    w' := w;
    assert Text(q.state, w') == Text(p.state, w) + [ch];
  }

  lemma ChunkEndStep(h: Head, p: Parser, w: Draft, ch: byte) returns (w': Draft)
    requires Live(p) && Sound(h, p) && p.state.ChunkDataDone? && Fits(p, w) && GoesOn(h, p, ch)
    ensures Continues(h, p, w, ch, w')
  {
    hide Value, HexDigits, CodedAll, WellFormed;
    w' := Draft(w.cs + [Current(w)], [], [], []);
    assert Step(h, p, ch).parser.state.ChunkSizeStart? && ch == LF;
    hide Step, Sound;
    CurrentWellFormed(w);
    CodedAppend(w.cs, Current(w));
    assert AllWellFormed(w'.cs);
    var line, x := SizeLine(Current(w)) + w.data, [LF] + CodedAll(w.cs);
    assert Coded(Current(w)) == line + [CR] + [LF];
    assert x + (line + [CR] + [LF]) == x + (line + [CR]) + [LF];
  }

  lemma CurrentWellFormed(w: Draft)
    requires Line(w, |w.data|) && |w.digits| + |w.extension| + 2 <= MAX_HEADER
    ensures WellFormed(Current(w))
  {}

  lemma TrailerStep(h: Head, p: Parser, w: Draft, ch: byte) returns (w': Draft)
    requires Live(p) && Sound(h, p) && (p.state.HeaderFieldStart? || p.state.HeadersAlmostDone?) && Fits(p, w) && GoesOn(h, p, ch)
    ensures Continues(h, p, w, ch, w')
  {
    hide Value, HexDigits, AllWellFormed, NewMessage;
    var q := Step(h, p, ch).parser;
    w' := w;
    assert Text(q.state, w') == Text(p.state, w) + [ch];
  }

  lemma DraftStep(h: Head, p: Parser, w: Draft, ch: byte) returns (w': Draft)
    requires Live(p) && Sound(h, p) && Fits(p, w) && GoesOn(h, p, ch)
    ensures Continues(h, p, w, ch, w')
  {
    hide GoesOn, Continues, Sound;
    match p.state
    case ChunkSizeStart => w' := SizeStartStep(h, p, w, ch);
    case ChunkSize => w' := SizeStep(h, p, w, ch);
    case ChunkParameters => w' := ParametersStep(h, p, w, ch);
    case ChunkSizeAlmostDone => w' := LineEndStep(h, p, w, ch);
    case ChunkData => w' := DataStep(h, p, w, ch);
    case ChunkDataAlmostDone => w' := DataEndStep(h, p, w, ch);
    case ChunkDataDone => w' := ChunkEndStep(h, p, w, ch);
    case HeaderFieldStart | HeadersAlmostDone => w' := TrailerStep(h, p, w, ch);
  }

  // ----- whole messages

  /** The first byte, which ends the header section. */
  lemma DraftStart(h: Head, p: Parser, ch: byte) returns (w: Draft)
    requires ExpectsChunks(h, p) && GoesOn(h, p, ch)
    ensures Fits(Step(h, p, ch).parser, w) && Text(Step(h, p, ch).parser.state, w) == [ch]
  {
    w := Draft([], [], [], []);
  }

  lemma RunNext(h: Head, p: Parser, data: seq<byte>, ch: byte)
    requires Sound(h, p) && !Between(p.state)
    requires var r := Run(h, p, data + [ch]); r.parser.errno == Ok && r.used == |data| + 1 && !Between(r.parser.state)
    ensures var r := Run(h, p, data);
      && r.used == |data| && r.parser.errno == Ok && Live(r.parser) && !Between(r.parser.state)
      && Run(h, p, data + [ch]).parser == Step(h, r.parser, ch).parser && GoesOn(h, r.parser, ch)
  {
    RunConcat(h, p, data, [ch]);
    var q := Run(h, p, data).parser;
    if Between(q.state) {
      BetweenStays(h, q, [ch]);
    }
    OneByte(h, q, ch);
  }

  lemma OneByte(h: Head, p: Parser, ch: byte)
    requires Sound(h, p)
    ensures var r := Run(h, p, [ch]);
      && (r.used == 1 <==> Live(p) && !Stuck(Step(h, p, ch).parser)) && r.used <= 1
      && (Live(p) ==> r.parser == Step(h, p, ch).parser && r.events == Step(h, p, ch).events)
  {
    hide Step, Sound;
    if Live(p) {
      StepSound(h, p, ch);
      assert [ch][1..] == [];
      assert Step(h, p, ch).events + [] == Step(h, p, ch).events;
    }
  }

  /** Whatever has been read without an error, before the end of the message, is the beginning of a
      message of the coding. */
  lemma {:induction false} RunDraft(h: Head, p: Parser, data: seq<byte>) returns (w: Draft)
    requires ExpectsChunks(h, p) && data != []
    requires var r := Run(h, p, data); r.parser.errno == Ok && r.used == |data| && !Between(r.parser.state)
    ensures Fits(Run(h, p, data).parser, w) && Text(Run(h, p, data).parser.state, w) == data
    decreases |data|
  {
    hide Run, Step, Sound, Fits, Text, GoesOn;
    var n := |data| - 1;
    var front, ch := data[..n], data[n];
    assert data == front + [ch];
    RunNext(h, p, front, ch);
    var q := Run(h, p, front).parser;
    if front == [] {
      NoBytes(h, p);
      w := DraftStart(h, p, ch);
    } else {
      var w0 := RunDraft(h, p, front);
      w := DraftStep(h, q, w0, ch);
      assert Continues(h, q, w0, ch, w);
    }
  }

  /** The end of a message that the parser accepts: a line end, with or without its first half. */
  lemma DraftEnd(h: Head, p: Parser, w: Draft, ch: byte)
    requires Live(p) && Sound(h, p) && Fits(p, w) && !Between(p.state) && Between(Step(h, p, ch).parser.state)
    ensures ch == LF && w.data == [] && Body(w.cs, Current(w))
    ensures p.state.HeaderFieldStart? || p.state.HeadersAlmostDone?
  {
    hide Push, Unhex, NewMessage, AllWellFormed;
  }

  /** A whole message with a bare line feed at its end. */
  function BareMessage(cs: seq<Chunk>, last: Chunk): seq<byte> {
    [LF] + CodedAll(cs) + SizeLine(last) + [LF]
  }

  ghost predicate InGrammar(data: seq<byte>) {
    exists cs, last :: Body(cs, last) && (data == Message(cs, last) || data == BareMessage(cs, last))
  }

  /** The bytes complete a message, and not before the last of them. */
  ghost predicate JustCompletes(h: Head, p: Parser, data: seq<byte>)
    requires Sound(h, p)
  {
    && data != [] && Run(h, p, data).used == |data| && Completions(Run(h, p, data).events) == 1
    && Completions(Run(h, p, data[..|data| - 1]).events) == 0
  }

  lemma CompletedText(h: Head, p: Parser, data: seq<byte>)
    requires ExpectsChunks(h, p) && JustCompletes(h, p, data)
    ensures InGrammar(data)
  {
    hide Run, Step, Sound, Fits, Completions, Body;
    var n := |data| - 1;
    var front, ch := data[..n], data[n];
    assert data == front + [ch];
    RunConcat(h, p, front, [ch]);
    RunCompletes(h, p, data);
    RunCompletes(h, p, front);
    var q := Run(h, p, front).parser;
    OneByte(h, q, ch);
    if front == [] {
      NoBytes(h, p);
      FirstIsNotLast(h, p, ch);
    } else {
      var w := RunDraft(h, p, front);
      DraftEnd(h, q, w, ch);
      var last := Current(w);
      assert SizeLine(last) + w.data == SizeLine(last);
      if q.state.HeaderFieldStart? {
        assert data == BareMessage(w.cs, last);
      } else {
        assert data == Message(w.cs, last);
      }
    }
  }

  lemma FirstIsNotLast(h: Head, p: Parser, ch: byte)
    requires ExpectsChunks(h, p)
    ensures !Between(Step(h, p, ch).parser.state)
  {}

  lemma BareRun(h: Head, p: Parser, cs: seq<Chunk>, last: Chunk)
    requires ExpectsChunks(h, p) && Body(cs, last)
    ensures var r := Run(h, p, [LF] + CodedAll(cs) + SizeLine(last));
      && r.used == 1 + |CodedAll(cs)| + |SizeLine(last)| && r.parser.errno == Ok
      && r.parser.state.HeaderFieldStart? && r.parser.nread == 0 && r.parser.trailing
  {
    hide Run, WellFormed, CodedAll, AllEvents, SizeLine;
    var q := p.(state := ChunkSizeStart, nread := 0, length := if cs == [] then p.length else 0);
    FirstChunks(h, p, cs);
    SizeLineRun(h, q, last);
    RunConcat(h, p, [LF] + CodedAll(cs), SizeLine(last));
  }

  lemma EndByte(h: Head, p: Parser)
    requires Sound(h, p) && p.errno == Ok && p.trailing && p.nread < MAX_HEADER
    requires p.state.HeaderFieldStart? || p.state.HeadersAlmostDone?
    ensures Live(p) && Between(Step(h, p, LF).parser.state) && Step(h, p, LF).parser.errno == Ok
  {}

  lemma GrammarCompletes(h: Head, p: Parser, cs: seq<Chunk>, last: Chunk, front: seq<byte>)
    requires ExpectsChunks(h, p) && Body(cs, last)
    requires front == Unfinished(cs, last) || front == [LF] + CodedAll(cs) + SizeLine(last)
    ensures JustCompletes(h, p, front + [LF])
  {
    hide Run, Step, WellFormed, CodedAll, AllEvents, SizeLine, Completions, Body, ExpectsChunks, Unfinished;
    Expecting(h, p);
    UnfinishedRun(h, p, cs, last);
    BareRun(h, p, cs, last);
    var q := Run(h, p, front).parser;
    FrontLength(cs, last, front);
    EndByte(h, q);
    OneByte(h, q, LF);
    RunConcat(h, p, front, [LF]);
    RunCompletes(h, p, front);
    RunCompletes(h, p, front + [LF]);
    assert (front + [LF])[..|front|] == front;
  }

  lemma FrontLength(cs: seq<Chunk>, last: Chunk, front: seq<byte>)
    ensures |[LF] + CodedAll(cs) + SizeLine(last)| == 1 + |CodedAll(cs)| + |SizeLine(last)|
  {}

  lemma Expecting(h: Head, p: Parser)
    requires ExpectsChunks(h, p)
    ensures Sound(h, p) && p.state.HeadersAlmostDone? && p.errno == Ok
  {}

  /** The parser completes a chunked message with the last byte of a text if and only if the text is a message of the
      coding: chunks whose sizes are the lengths of their data, extensions that begin with a semicolon
      or a space, size lines within the limit, a last chunk of size zero, and a line end. */
  lemma ChunkedExactly(h: Head, p: Parser, data: seq<byte>)
    requires ExpectsChunks(h, p)
    ensures JustCompletes(h, p, data) <==> InGrammar(data)
  {
    hide JustCompletes, Body, ExpectsChunks, Unfinished;
    Expecting(h, p);
    if JustCompletes(h, p, data) {
      CompletedText(h, p, data);
    }
    if InGrammar(data) {
      var cs, last :| Body(cs, last) && (data == Message(cs, last) || data == BareMessage(cs, last));
      if data == Message(cs, last) {
        GrammarCompletes(h, p, cs, last, Unfinished(cs, last));
      } else {
        GrammarCompletes(h, p, cs, last, [LF] + CodedAll(cs) + SizeLine(last));
      }
    }
  }

  // ----- what is refused, and how

  /** A byte within a message is refused exactly for these reasons, each with its code: a missing line end, a size
      that is no hexadecimal number or does not end as one may, a size that does not fit, a line that is too
      long; and after the last message, anything. */
  lemma RefusalCodes(h: Head, p: Parser, ch: byte)
    requires Live(p) && Sound(h, p)
    ensures var e, s := Step(h, p, ch).parser.errno, p.state;
      var long := CountsAsHeader(s) && p.nread >= MAX_HEADER;
      var ending := s.HeadersAlmostDone? || s.ChunkSizeAlmostDone? || s.ChunkDataDone?;
      && (e == HeaderOverflow <==> long)
      && (e == Strict <==> !long && ((ending && ch != LF) || (s.ChunkDataAlmostDone? && ch != CR)))
      && (e == InvalidChunkSize <==>
            !long && Unhex(ch) == -1 && (s.ChunkSizeStart? || (s.ChunkSize? && ch != CR && ch != SEMICOLON && ch != SPACE)))
      && (e == InvalidContentLength <==> !long && s.ChunkSize? && Unhex(ch) >= 0 && 16 * p.length + Unhex(ch) >= UNKNOWN - 15)
      && (e == ClosedConnection <==> !long && s.Dead? && ch != CR && ch != LF)
      && e != InvalidEofState
  {
    if p.state.ChunkSize? && Unhex(ch) >= 0 {
      PushExact(16, p.length, Unhex(ch));
      DigitNotMark(ch);
    }
    hide Push, Unhex, NewMessage, NeedsEof;
  }
}
