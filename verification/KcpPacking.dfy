/** Packing segments into datagrams of at most `mtu` bytes. */
module KcpPacking {
  import opened Serial
  import opened KcpWire

  /** The datagrams already handed to the output callback, and the bytes
      between the start of the buffer and the write position. */
  datatype Packer = Packer(out: seq<Datagram>, cur: seq<byte>)

  /** `ikcp_output`, which drops an empty buffer. */
  function Emit(p: Packer): Packer {
    Packer(if p.cur == [] then p.out else p.out + [p.cur], [])
  }

  function Put(p: Packer, mtu: nat, seg: Segment): Packer {
    var p' := if |p.cur| + OVERHEAD + |seg.data| > mtu then Emit(p) else p;
    p'.(cur := p'.cur + Encode(seg))
  }

  function PutAll(p: Packer, mtu: nat, segs: seq<Segment>): Packer {
    if segs == [] then p else Put(PutAll(p, mtu, segs[..|segs| - 1]), mtu, segs[|segs| - 1])
  }

  function Pack(mtu: nat, segs: seq<Segment>): seq<Datagram> {
    Emit(PutAll(Packer([], []), mtu, segs)).out
  }

  lemma {:induction false} PutAllConcat(p: Packer, mtu: nat, xs: seq<Segment>, ys: seq<Segment>)
    ensures PutAll(p, mtu, xs + ys) == PutAll(PutAll(p, mtu, xs), mtu, ys)
  {
    if ys == [] {
      assert xs + ys == xs;
    } else {
      var n := |ys| - 1;
      assert (xs + ys)[..|xs + ys| - 1] == xs + ys[..n];
      PutAllConcat(p, mtu, xs, ys[..n]);
    }
  }

  // ----- what packing keeps

  /** How the segments are shared out: the finished datagrams and the current one. */
  datatype Groups = Groups(out: seq<seq<Segment>>, cur: seq<Segment>)

  ghost function Flatten(gs: seq<seq<Segment>>): seq<Segment> {
    if gs == [] then [] else Flatten(gs[..|gs| - 1]) + gs[|gs| - 1]
  }

  ghost predicate Matches(p: Packer, g: Groups, mtu: nat) {
    && |p.out| == |g.out|
    && (forall i :: 0 <= i < |p.out| ==> g.out[i] != [] && p.out[i] == EncodeAll(g.out[i]) && 1 <= |p.out[i]| <= mtu)
    && p.cur == EncodeAll(g.cur) && |p.cur| <= mtu
    && (g.cur != [] ==> p.cur != [])
  }

  /** The group `x` has no room for the first segment of the next one. */
  ghost predicate NoRoom(x: seq<Segment>, y: seq<Segment>, mtu: nat) {
    y != [] ==> |EncodeAll(x)| + |Encode(y[0])| > mtu
  }

  /** No datagram has room for the segment that follows it. */
  ghost predicate Tight(gs: seq<seq<Segment>>, mtu: nat) {
    forall i :: 0 <= i < |gs| - 1 ==> NoRoom(gs[i], gs[i + 1], mtu)
  }

  /** Between two segments: the current datagram is begun as soon as there is one, and all are tight. */
  ghost predicate Greedy(g: Groups, mtu: nat) {
    (g.cur == [] ==> g.out == []) && Tight(g.out + [g.cur], mtu)
  }

  ghost predicate Fits(mtu: nat, segs: seq<Segment>) {
    forall i :: 0 <= i < |segs| ==> OVERHEAD + |segs[i].data| <= mtu
  }

  lemma EmitMatches(p: Packer, g: Groups, mtu: nat) returns (g': Groups)
    requires Matches(p, g, mtu)
    ensures Matches(Emit(p), g', mtu)
    ensures Flatten(g'.out) + g'.cur == Flatten(g.out) + g.cur && g'.cur == []
    ensures p.cur != [] ==> g' == Groups(g.out + [g.cur], [])
    ensures p.cur == [] ==> g' == Groups(g.out, [])
  {
    if p.cur == [] {
      g' := Groups(g.out, []);
      assert Flatten(g.out) + g.cur == Flatten(g.out) + [];
    } else {
      g' := Groups(g.out + [g.cur], []);
      assert g'.out[..|g'.out| - 1] == g.out;
      assert Flatten(g'.out) == Flatten(g.out) + g.cur;
    }
  }

  lemma PutMatches(p: Packer, g: Groups, mtu: nat, seg: Segment) returns (g': Groups)
    requires Matches(p, g, mtu) && Greedy(g, mtu) && OVERHEAD + |seg.data| <= mtu
    ensures Matches(Put(p, mtu, seg), g', mtu) && Greedy(g', mtu)
    ensures Flatten(g'.out) + g'.cur == Flatten(g.out) + g.cur + [seg]
  {
    hide Greedy;
    var p', g1 := p, g;
    if |p.cur| + OVERHEAD + |seg.data| > mtu {
      p' := Emit(p);
      g1 := EmitMatches(p, g, mtu);
    }
    EncodeAllAppend(g1.cur, seg);
    g' := g1.(cur := g1.cur + [seg]);
    assert Flatten(g'.out) + g'.cur == Flatten(g1.out) + g1.cur + [seg];
    StaysGreedy(p, g, g1, mtu, seg);
  }

  lemma StaysGreedy(p: Packer, g: Groups, g1: Groups, mtu: nat, seg: Segment)
    requires Greedy(g, mtu) && p.cur == EncodeAll(g.cur) && (g.cur != [] ==> p.cur != []) && OVERHEAD + |seg.data| <= mtu
    requires g1 == (if |p.cur| + OVERHEAD + |seg.data| > mtu then Groups(g.out + [g.cur], []) else g)
    ensures Greedy(g1.(cur := g1.cur + [seg]), mtu)
  {
    var before, after := g.out + [g.cur], g1.out + [g1.cur + [seg]];
    forall i | 0 <= i < |after| - 1 ensures NoRoom(after[i], after[i + 1], mtu) {
      if i < |before| - 1 {
        assert NoRoom(before[i], before[i + 1], mtu);
      }
    }
  }

  lemma {:induction false} PutAllMatches(mtu: nat, segs: seq<Segment>) returns (g: Groups)
    requires Fits(mtu, segs)
    ensures Matches(PutAll(Packer([], []), mtu, segs), g, mtu) && Greedy(g, mtu)
    ensures Flatten(g.out) + g.cur == segs
  {
    hide Put, Encode, Matches, Greedy;
    if segs == [] {
      NothingPacked(mtu);
      g := Groups([], []);
    } else {
      var n := |segs| - 1;
      g := PutAllMatches(mtu, segs[..n]);
      g := PutMatches(PutAll(Packer([], []), mtu, segs[..n]), g, mtu, segs[n]);
      assert segs == segs[..n] + [segs[n]];
    }
  }

  lemma NothingPacked(mtu: nat)
    ensures Matches(Packer([], []), Groups([], []), mtu) && Greedy(Groups([], []), mtu)
  {}

  /** Every datagram has between 1 and `mtu` bytes and is a whole number of
      segments, together they are the segments in order, and none has room for the next segment. */
  lemma PackWhole(mtu: nat, segs: seq<Segment>) returns (groups: seq<seq<Segment>>)
    requires Fits(mtu, segs)
    ensures Flatten(groups) == segs
    ensures |groups| == |Pack(mtu, segs)|
    ensures forall i :: 0 <= i < |groups| ==>
      groups[i] != [] && Pack(mtu, segs)[i] == EncodeAll(groups[i]) && 1 <= |Pack(mtu, segs)[i]| <= mtu
    ensures Tight(groups, mtu)
  {
    var g0 := PutAllMatches(mtu, segs);
    var g := EmitMatches(PutAll(Packer([], []), mtu, segs), g0, mtu);
    groups := g.out;
    TightFront(g0, mtu);
  }

  lemma TightFront(g: Groups, mtu: nat)
    requires Greedy(g, mtu)
    ensures Tight(g.out, mtu) && Tight(g.out + [g.cur], mtu)
  {
    var all := g.out + [g.cur];
    forall i | 0 <= i < |g.out| - 1 ensures NoRoom(g.out[i], g.out[i + 1], mtu) {
      assert NoRoom(all[i], all[i + 1], mtu);
    }
  }

  // ----- no packing in order needs fewer datagrams

  lemma {:induction false} EncodeAllConcat(x: seq<Segment>, y: seq<Segment>)
    ensures EncodeAll(x + y) == EncodeAll(x) + EncodeAll(y)
  {
    hide Encode;
    if x == [] {
      assert x + y == y;
    } else {
      assert (x + y)[1..] == x[1..] + y;
      EncodeAllConcat(x[1..], y);
    }
  }

  /** How many segments the first `k` groups hold. */
  ghost function Reach(gs: seq<seq<Segment>>, k: nat): nat
    requires k <= |gs|
  {
    |Flatten(gs[..k])|
  }

  lemma {:induction false} FrontGroups(gs: seq<seq<Segment>>, k: nat)
    requires k <= |gs|
    ensures Flatten(gs[..k]) <= Flatten(gs)
    decreases |gs|
  {
    if k == |gs| {
      assert gs[..k] == gs;
    } else {
      var n := |gs| - 1;
      FrontGroups(gs[..n], k);
      assert gs[..n][..k] == gs[..k];
    }
  }

  /** Group `k` is the stretch of segments between two of these marks. */
  lemma GroupAt(gs: seq<seq<Segment>>, k: nat)
    requires k < |gs|
    ensures Reach(gs, k) <= Reach(gs, k + 1) == Reach(gs, k) + |gs[k]| <= |Flatten(gs)|
    ensures gs[k] == Flatten(gs)[Reach(gs, k)..Reach(gs, k + 1)]
  {
    FlattenNext(gs, k);
    FrontGroups(gs, k + 1);
    hide Flatten;
    var x, all := Flatten(gs[..k]), Flatten(gs);
    assert all[..|x| + |gs[k]|] == x + gs[k];
  }

  lemma FlattenNext(gs: seq<seq<Segment>>, k: nat)
    requires k < |gs|
    ensures Flatten(gs[..k + 1]) == Flatten(gs[..k]) + gs[k]
  {
    assert gs[..k + 1][..k] == gs[..k];
  }

  lemma StretchSize(segs: seq<Segment>, a: nat, b: nat, c: nat, d: nat)
    requires a <= b <= c <= d <= |segs|
    ensures |EncodeAll(segs[b..c])| <= |EncodeAll(segs[a..d])|
  {
    hide EncodeAll;
    EncodeAllConcat(segs[a..b], segs[b..c]);
    EncodeAllConcat(segs[a..b] + segs[b..c], segs[c..d]);
    assert segs[a..b] + segs[b..c] + segs[c..d] == segs[a..d];
  }

  /** Each of the first `k` groups of a tight packing ends no earlier than that of any other. */
  lemma {:induction false} AheadOf(gs: seq<seq<Segment>>, hs: seq<seq<Segment>>, mtu: nat, k: nat)
    requires Flatten(gs) == Flatten(hs) && Tight(gs, mtu) && k <= |gs| && k <= |hs|
    requires forall i :: 0 <= i < |gs| ==> gs[i] != []
    requires forall i :: 0 <= i < |hs| ==> |EncodeAll(hs[i])| <= mtu
    ensures Reach(gs, k) >= Reach(hs, k)
    decreases k
  {
    hide EncodeAll, Encode;
    if k > 0 {
      var segs := Flatten(gs);
      AheadOf(gs, hs, mtu, k - 1);
      GroupAt(gs, k - 1);
      GroupAt(hs, k - 1);
      var a, b, c, d := Reach(hs, k - 1), Reach(gs, k - 1), Reach(gs, k), Reach(hs, k);
      if c < d {
        NextGroup(gs, k);
        GroupAt(gs, k);
        assert NoRoom(gs[k - 1], gs[k], mtu);
        assert gs[k][0] == segs[c];
        EncodeAllAppend(segs[b..c], segs[c]);
        assert segs[b..c] + [segs[c]] == segs[b..c + 1];
        StretchSize(segs, a, b, c + 1, d);
      }
    }
  }

  /** Before the last segment there is another group. */
  lemma NextGroup(gs: seq<seq<Segment>>, k: nat)
    requires k <= |gs| && Reach(gs, k) < |Flatten(gs)|
    ensures k < |gs|
  {
    assert gs[..|gs|] == gs;
  }

  /** A flush needs no more datagrams than any other way to share the segments out in order. */
  lemma PackMinimal(mtu: nat, segs: seq<Segment>, hs: seq<seq<Segment>>)
    requires Fits(mtu, segs) && Flatten(hs) == segs && forall i :: 0 <= i < |hs| ==> |EncodeAll(hs[i])| <= mtu
    ensures |Pack(mtu, segs)| <= |hs|
  {
    hide EncodeAll, Pack, Tight;
    var gs := PackWhole(mtu, segs);
    var k := Min(|gs|, |hs|);
    AheadOf(gs, hs, mtu, k);
    assert hs[..|hs|] == hs;
    if |hs| < |gs| {
      GroupAt(gs, |hs|);
    }
  }

  lemma {:induction false} FlattenMember(gs: seq<seq<Segment>>, i: nat, j: nat)
    requires i < |gs| && j < |gs[i]|
    ensures gs[i][j] in Flatten(gs)
  {
    if i < |gs| - 1 {
      FlattenMember(gs[..|gs| - 1], i, j);
    }
  }

  /** The segments that a peer decodes from a list of datagrams. */
  ghost function UnpackAll(conv: u32, ds: seq<Datagram>): seq<Segment> {
    if ds == [] then [] else UnpackAll(conv, ds[..|ds| - 1]) + Unpack(conv, ds[|ds| - 1]).segs
  }

  lemma {:induction false} UnpackGroups(conv: u32, ds: seq<Datagram>, gs: seq<seq<Segment>>)
    requires |ds| == |gs|
    requires forall i :: 0 <= i < |ds| ==> ds[i] == EncodeAll(gs[i]) && AllSendable(conv, gs[i])
    ensures UnpackAll(conv, ds) == OnWireAll(Flatten(gs))
  {
    hide Unpack, EncodeAll, OnWire;
    if ds != [] {
      var n := |ds| - 1;
      UnpackGroups(conv, ds[..n], gs[..n]);
      UnpackEncodeAll(conv, gs[n]);
      assert OnWireAll(Flatten(gs[..n]) + gs[n]) == OnWireAll(Flatten(gs[..n])) + OnWireAll(gs[n]);
    }
  }

  /** Packing, then decoding every datagram, gives exactly the segments, in
      order, and every datagram is accepted to its end. */
  lemma PackUnpack(conv: u32, mtu: nat, segs: seq<Segment>)
    requires Fits(mtu, segs) && AllSendable(conv, segs)
    ensures UnpackAll(conv, Pack(mtu, segs)) == OnWireAll(segs)
    ensures forall d :: d in Pack(mtu, segs) ==> Unpack(conv, d).rc == 0
  {
    var gs := PackWhole(mtu, segs);
    forall i | 0 <= i < |gs| ensures AllSendable(conv, gs[i]) {
      forall j | 0 <= j < |gs[i]| ensures Sendable(conv, gs[i][j]) {
        FlattenMember(gs, i, j);
      }
    }
    UnpackGroups(conv, Pack(mtu, segs), gs);
    forall d | d in Pack(mtu, segs) ensures Unpack(conv, d).rc == 0 {
      var i :| 0 <= i < |gs| && Pack(mtu, segs)[i] == d;
      UnpackEncodeAll(conv, gs[i]);
    }
  }
}
