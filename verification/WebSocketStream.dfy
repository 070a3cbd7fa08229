/** A WebSocket byte stream through the session buffer: the loop that takes frames
    off the buffer, and what it makes of a stream that arrives in pieces. */
module WebSocketStream {
  import opened Serial
  import opened WebSocketFrame
  import opened SessionBuffer

  /** The frames at the front of a buffer, and the bytes no frame could be made of. */
  datatype Taken = Taken(frames: seq<Extracted>, rest: seq<byte>)

  function Take(b: seq<byte>): (t: Taken)
    ensures forall f :: f in t.frames ==> f.Some?
    decreases |b|
  {
    var x := Extract(b);
    if x.None? then Taken([], b) else
    var t := Take(b[x.size..]);
    Taken([x] + t.frames, t.rest)
  }

  /** The messages the loop makes of a list of frames, with the fragments cached so far. */
  function Assemble(frames: seq<Extracted>, cache: seq<byte>): seq<seq<byte>>
    requires forall f :: f in frames ==> f.Some?
  {
    if frames == [] then [] else
    var f := frames[0];
    var part := !f.fin || f.opcode == CONTINUATION;
    var first := !f.fin && f.opcode != CONTINUATION;
    var cache' := if first then [] else if part then cache + f.payload else cache;
    if !f.fin then Assemble(frames[1..], cache') else
    var data := if part then [] else f.payload;
    var message := if f.opcode == CONTINUATION && cache' != [] then cache' else data;
    [message] + Assemble(frames[1..], cache')
  }

  // ----- the loop

  /** `dispose_websocket_data_message`. */
  method Dispose(buffer: Buffer, list: seq<seq<byte>>) returns (messages: seq<seq<byte>>)
    requires buffer.Valid()
    modifies buffer, buffer.data
    ensures buffer.Valid()
    ensures buffer.Contents() == Take(old(buffer.Contents())).rest
    ensures messages == list + Assemble(Take(old(buffer.Contents())).frames, [])
  {
    hide Extract;
    ghost var all := Take(buffer.Contents());
    messages := list;
    var left, cache := buffer.writeSize, [];
    while left > 0
      invariant buffer.Valid() && left == buffer.writeSize
      invariant Take(buffer.Contents()).rest == all.rest
      invariant messages + Assemble(Take(buffer.Contents()).frames, cache) == list + Assemble(all.frames, [])
    {
      ghost var was := buffer.Contents();
      var ok, data, opcode, size, fin := ExtractBuffer(buffer.data, left, []);
      if !ok {
        return;
      }
      ghost var t, frame := Take(was), Extract(was);
      assert t.frames[1..] == Take(was[size..]).frames;
      if !fin || opcode == CONTINUATION {
        cache := cache + data;
        data := [];
      }
      if !fin && opcode != CONTINUATION {
        cache := [];
      }
      left := left - size;
      buffer.Move(size);
      assert buffer.Contents() == was[size..];
      if !fin {
        continue;
      }
      if opcode == CONTINUATION {
        if cache != [] {
          data := cache;
        }
      }
      messages := messages + [data];
    }
  }

  /** One read: the bytes go into the free space, then the loop runs. */
  method OnData(buffer: Buffer, chunk: seq<byte>) returns (messages: seq<seq<byte>>)
    requires buffer.Valid() && |buffer.Contents()| + |chunk| <= buffer.data.Length
    modifies buffer, buffer.data
    ensures buffer.Valid()
    ensures Session([chunk], old(buffer.Contents())) == Output(messages, buffer.Contents())
  {
    buffer.Fill(chunk);
    messages := Dispose(buffer, []);
  }

  // ----- a stream in pieces

  /** What a session delivers over several reads, and what its buffer then holds. */
  datatype Output = Output(messages: seq<seq<byte>>, rest: seq<byte>)

  function Session(chunks: seq<seq<byte>>, held: seq<byte>): Output {
    if chunks == [] then Output([], held) else
    var t := Take(held + chunks[0]);
    var o := Session(chunks[1..], t.rest);
    Output(Assemble(t.frames, []) + o.messages, o.rest)
  }

  function Flatten(chunks: seq<seq<byte>>): seq<byte> {
    if chunks == [] then [] else chunks[0] + Flatten(chunks[1..])
  }

  /** Taking frames off a stream does not depend on where it is cut. */
  lemma {:induction false} TakeConcat(b: seq<byte>, c: seq<byte>)
    ensures var t := Take(b);
      var u := Take(t.rest + c);
      Take(b + c) == Taken(t.frames + u.frames, u.rest)
    decreases |b|
  {
    hide Extract;
    var x := Extract(b);
    if x.Some? {
      ExtractStable(b, c);
      TakeConcat(b[x.size..], c);
      assert (b + c)[x.size..] == b[x.size..] + c;
    } else {
      assert Take(b) == Taken([], b);
      assert [] + Take(b + c).frames == Take(b + c).frames;
    }
  }

  lemma {:induction false} RestIsUnfinished(b: seq<byte>)
    ensures Extract(Take(b).rest) == None
    decreases |b|
  {
    hide Extract;
    if Extract(b).Some? {
      RestIsUnfinished(b[Extract(b).size..]);
    }
  }

  ghost predicate Unfragmented(frames: seq<Extracted>) {
    forall f :: f in frames ==> f.Some? && f.fin && f.opcode != CONTINUATION
  }

  function Payloads(frames: seq<Extracted>): seq<seq<byte>>
    requires forall f :: f in frames ==> f.Some?
  {
    if frames == [] then [] else [frames[0].payload] + Payloads(frames[1..])
  }

  lemma {:induction false} AssembleWhole(frames: seq<Extracted>, cache: seq<byte>)
    requires Unfragmented(frames)
    ensures Assemble(frames, cache) == Payloads(frames)
  {
    if frames != [] {
      AssembleWhole(frames[1..], cache);
    }
  }

  lemma {:induction false} PayloadsConcat(f: seq<Extracted>, g: seq<Extracted>)
    requires (forall x :: x in f ==> x.Some?) && forall x :: x in g ==> x.Some?
    ensures Payloads(f + g) == Payloads(f) + Payloads(g)
  {
    if f == [] {
      assert f + g == g;
    } else {
      assert (f + g)[1..] == f[1..] + g;
      PayloadsConcat(f[1..], g);
    }
  }

  /** Read boundaries do not matter: for every byte stream whose frames are
      unfragmented, and every way to cut it into reads, the messages delivered are the
      payloads of the frames of the whole stream and the bytes kept are its unfinished end. */
  lemma {:induction false} SplitIndependence(chunks: seq<seq<byte>>, held: seq<byte>)
    requires Extract(held) == None
    requires Unfragmented(Take(held + Flatten(chunks)).frames)
    ensures var t := Take(held + Flatten(chunks));
      Session(chunks, held) == Output(Payloads(t.frames), t.rest)
  {
    hide Extract;
    if chunks == [] {
      assert held + Flatten(chunks) == held;
    } else {
      var b, c := held + chunks[0], Flatten(chunks[1..]);
      assert held + Flatten(chunks) == b + c;
      TakeConcat(b, c);
      var t := Take(b);
      var u := Take(t.rest + c);
      RestIsUnfinished(b);
      assert forall f :: f in t.frames ==> f in t.frames + u.frames;
      assert forall f :: f in u.frames ==> f in t.frames + u.frames;
      SplitIndependence(chunks[1..], t.rest);
      AssembleWhole(t.frames, []);
      PayloadsConcat(t.frames, u.frames);
    }
  }

  // ----- a stream of built frames

  /** An unfragmented message as a peer sends it. */
  datatype Sent = Sent(kind: byte, m: Masking, payload: seq<byte>)

  predicate Deliverable(f: Sent) {
    f.kind % 16 != CONTINUATION && |f.payload| < LIMIT
  }

  predicate AllDeliverable(fs: seq<Sent>) {
    forall f :: f in fs ==> Deliverable(f)
  }

  function Bytes(f: Sent): (b: seq<byte>)
    ensures |b| >= 2
  {
    Frame(f.kind, true, f.m, f.payload)
  }

  function Wire(fs: seq<Sent>): seq<byte> {
    if fs == [] then [] else Bytes(fs[0]) + Wire(fs[1..])
  }

  function Messages(fs: seq<Sent>): seq<seq<byte>> {
    if fs == [] then [] else [fs[0].payload] + Messages(fs[1..])
  }

  /** How many frames lie wholly within the first `n` bytes. */
  function Complete(fs: seq<Sent>, n: nat): (k: nat)
    ensures k <= |fs|
  {
    if fs == [] || n < |Bytes(fs[0])| then 0 else 1 + Complete(fs[1..], n - |Bytes(fs[0])|)
  }

  lemma BytesExtracted(f: Sent, rest: seq<byte>)
    requires Deliverable(f)
    ensures var x := Extract(Bytes(f) + rest);
      x.Some? && x.fin && x.opcode != CONTINUATION && x.payload == f.payload && x.size == |Bytes(f)|
  {
    hide Extract, Frame;
    FrameExtracted(f.kind, true, f.m, f.payload, rest);
  }

  lemma {:induction false} WireTake(fs: seq<Sent>, tail: seq<byte>)
    requires AllDeliverable(fs) && Extract(tail) == None
    ensures var t := Take(Wire(fs) + tail);
      t.rest == tail && Unfragmented(t.frames) && Payloads(t.frames) == Messages(fs)
  {
    hide Extract, Bytes;
    if fs == [] {
      assert Wire(fs) + tail == tail;
    } else {
      var b := Wire(fs) + tail;
      assert b == Bytes(fs[0]) + (Wire(fs[1..]) + tail);
      BytesExtracted(fs[0], Wire(fs[1..]) + tail);
      assert b[Extract(b).size..] == Wire(fs[1..]) + tail;
      WireTake(fs[1..], tail);
      assert Take(b).frames[1..] == Take(Wire(fs[1..]) + tail).frames;
    }
  }

  /** The bytes of a stream beyond its complete frames are a strict prefix of the next frame. */
  lemma {:induction false} CutWire(fs: seq<Sent>, s: seq<byte>)
    requires s <= Wire(fs)
    ensures var k := Complete(fs, |s|);
      && Wire(fs[..k]) <= s
      && (k == |fs| ==> s == Wire(fs))
      && (k < |fs| ==> s[|Wire(fs[..k])|..] < Bytes(fs[k]))
  {
    hide Bytes;
    if fs != [] && |s| >= |Bytes(fs[0])| {
      var n := |Bytes(fs[0])|;
      CutWire(fs[1..], s[n..]);
      var k := Complete(fs[1..], |s| - n);
      assert fs[..k + 1][1..] == fs[1..][..k];
      assert s == s[..n] + s[n..] && s[..n] == Bytes(fs[0]);
      var w := |Wire(fs[1..][..k])|;
      assert s[n + w..] == s[n..][w..];
    }
  }

  lemma StrictPrefixWaits(f: Sent, tail: seq<byte>)
    requires Deliverable(f) && tail < Bytes(f)
    ensures Extract(tail) == None
  {
    hide Extract, Bytes;
    BytesExtracted(f, []);
    assert Bytes(f) + [] == Bytes(f) && tail == Bytes(f)[..|tail|];
    ExtractWaits(Bytes(f), |tail|);
  }

  /** For every list of unfragmented frames that each fit the buffer, and every way the
      bytes received so far were cut into reads: the messages delivered are those of
      the complete frames, in order; the buffer holds exactly the bytes of the frame
      that is not complete; and it is not full, so the next read makes progress. */
  lemma StreamSplitting(fs: seq<Sent>, chunks: seq<seq<byte>>, capacity: nat)
    requires AllDeliverable(fs) && Flatten(chunks) <= Wire(fs)
    requires capacity > 0 && forall f :: f in fs ==> |Bytes(f)| <= capacity
    ensures var k, o := Complete(fs, |Flatten(chunks)|), Session(chunks, []);
      && o.messages == Messages(fs[..k])
      && Flatten(chunks) == Wire(fs[..k]) + o.rest
      && (if k < |fs| then o.rest < Bytes(fs[k]) else o.rest == [])
      && |o.rest| < capacity
  {
    hide Extract, Bytes, Deliverable, Wire, Messages, Take, Session, Payloads, Flatten, Unfragmented;
    var s := Flatten(chunks);
    var k := Complete(fs, |s|);
    CutWire(fs, s);
    var tail := s[|Wire(fs[..k])|..];
    assert [] + s == s == Wire(fs[..k]) + tail;
    assert k == |fs| ==> fs[..k] == fs && tail == [];
    EmptyWaits();
    if k < |fs| {
      StrictPrefixWaits(fs[k], tail);
    }
    WireTake(fs[..k], tail);
    SplitIndependence(chunks, []);
  }

  lemma EmptyWaits()
    ensures Extract([]) == None
  {
  }

  // ----- fragmented messages

  /** A first fragment: not final, and not a continuation. */
  predicate Opens(f: Extracted) {
    f.Some? && !f.fin && f.opcode != CONTINUATION
  }

  /** The fragments that follow: continuations, of which the last is final. */
  ghost predicate Continues(frames: seq<Extracted>) {
    && frames != []
    && (forall f :: f in frames ==> f.Some? && f.opcode == CONTINUATION)
    && forall i :: 0 <= i < |frames| ==> (frames[i].fin <==> i == |frames| - 1)
  }

  lemma {:induction false} Continued(frames: seq<Extracted>, cache: seq<byte>)
    requires Continues(frames)
    ensures Assemble(frames, cache) == [cache + Flatten(Payloads(frames))]
  {
    var cache' := cache + frames[0].payload;
    if |frames| == 1 {
      assert frames[1..] == [];
      assert Flatten(Payloads(frames)) == frames[0].payload;
    } else {
      Continued(frames[1..], cache');
      assert cache' + Flatten(Payloads(frames[1..])) == cache + Flatten(Payloads(frames));
    }
  }

  /** A message that arrives fragmented, all in one read, is delivered whole exactly
      when its first fragment is empty: the loop forgets the first fragment. */
  lemma FragmentedMessage(first: Extracted, others: seq<Extracted>, cache: seq<byte>)
    requires Opens(first) && Continues(others)
    ensures Assemble([first] + others, cache) == [Flatten(Payloads(others))]
    ensures Assemble([first] + others, cache) == [Flatten(Payloads([first] + others))] <==> first.payload == []
  {
    Continued(others, []);
    var frames := [first] + others;
    assert frames[1..] == others;
    assert [] + Flatten(Payloads(others)) == Flatten(Payloads(others));
    assert Flatten(Payloads(frames)) == first.payload + Flatten(Payloads(others));
    assert |Flatten(Payloads(frames))| == |first.payload| + |Flatten(Payloads(others))|;
  }

  /** The loop does lose a fragment: two frames that should make one message. */
  lemma FragmentLost()
    ensures Assemble([Some(false, 1, [65], 3), Some(true, CONTINUATION, [66], 3)], []) == [[66]]
  {
    var first, last := Some(false, 1, [65], 3), Some(true, CONTINUATION, [66], 3);
    FragmentedMessage(first, [last], []);
    assert [first] + [last] == [first, last];
    assert Payloads([last]) == [[66]] && Flatten([[66]]) == [66];
  }

  // ----- any frames

  /** The payloads of the continuations since the last first fragment, counted from the end. */
  function Collected(frames: seq<Extracted>): seq<byte>
    requires forall f :: f in frames ==> f.Some?
  {
    if frames == [] then [] else
    var f, front := frames[|frames| - 1], frames[..|frames| - 1];
    if Opens(f) then [] else Collected(front) + (if f.opcode == CONTINUATION then f.payload else [])
  }

  /** One message for each final frame: its payload, or for a continuation all that has been collected. */
  function Assembled(frames: seq<Extracted>): seq<seq<byte>>
    requires forall f :: f in frames ==> f.Some?
  {
    if frames == [] then [] else
    var f, front := frames[|frames| - 1], frames[..|frames| - 1];
    Assembled(front) + (if !f.fin then [] else [if f.opcode == CONTINUATION then Collected(frames) else f.payload])
  }

  lemma OneFrame(f: Extracted, cache: seq<byte>, more: seq<Extracted>)
    requires f.Some? && forall g :: g in more ==> g.Some?
    ensures var cache' := if Opens(f) then [] else if f.opcode == CONTINUATION then cache + f.payload else cache;
      Assemble([f] + more, cache)
        == (if !f.fin then [] else [if f.opcode == CONTINUATION then cache' else f.payload]) + Assemble(more, cache')
  {
    assert ([f] + more)[1..] == more;
  }

  lemma LookBack(seen: seq<Extracted>, f: Extracted)
    requires (forall g :: g in seen ==> g.Some?) && f.Some?
    ensures var next := seen + [f];
      && Collected(next) ==
         (if Opens(f) then [] else if f.opcode == CONTINUATION then Collected(seen) + f.payload else Collected(seen))
      && Assembled(next) ==
         Assembled(seen) + (if !f.fin then [] else [if f.opcode == CONTINUATION then Collected(next) else f.payload])
  {
    var next := seen + [f];
    assert next[..|next| - 1] == seen && next[|next| - 1] == f;
    assert Collected(seen) + [] == Collected(seen);
  }

  lemma {:induction false} AssembleRest(seen: seq<Extracted>, frames: seq<Extracted>)
    requires (forall f :: f in seen ==> f.Some?) && forall f :: f in frames ==> f.Some?
    ensures Assembled(seen + frames) == Assembled(seen) + Assemble(frames, Collected(seen))
    decreases |frames|
  {
    if frames == [] {
      assert seen + frames == seen;
      assert Assembled(seen) + [] == Assembled(seen);
    } else {
      hide Assemble, Assembled, Collected, Opens;
      var f, rest := frames[0], frames[1..];
      var next := seen + [f];
      assert frames == [f] + rest && seen + frames == next + rest;
      OneFrame(f, Collected(seen), rest);
      LookBack(seen, f);
      AssembleRest(next, rest);
      var m := if !f.fin then [] else [if f.opcode == CONTINUATION then Collected(next) else f.payload];
      Regrouped(Assembled(seen), m, Assemble(rest, Collected(next)));
    }
  }

  lemma Regrouped(a: seq<seq<byte>>, b: seq<seq<byte>>, c: seq<seq<byte>>)
    ensures a + b + c == a + (b + c)
  {
  }

  /** What the loop makes of any frames of one read: every final frame yields a message, in order; one that is no
      continuation yields its payload, and a continuation what all continuations since the last first fragment
      carry together. */
  lemma AssembleMeans(frames: seq<Extracted>)
    requires forall f :: f in frames ==> f.Some?
    ensures Assemble(frames, []) == Assembled(frames)
  {
    AssembleRest([], frames);
    assert [] + frames == frames && [] + Assemble(frames, []) == Assemble(frames, []);
  }
}
