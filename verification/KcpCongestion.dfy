/** The congestion window. */
module KcpCongestion {
  import opened Serial

  const THRESH_MIN: u32 := 2

  /** `cwnd` in segments, `incr` in bytes, and `ssthresh`. */
  datatype Cc = Cc(cwnd: u32, incr: u32, ssthresh: u32)

  function Mul32(a: u32, b: u32): u32 {
    Wrap(a * b)
  }

  lemma MulLe(a: int, b: int, m: int)
    requires a <= b && m >= 0
    ensures a * m <= b * m
  {}

  lemma MulCancel(a: int, b: int, m: int)
    requires m > 0
    ensures a * m < b * m ==> a < b
    ensures a * m <= b * m ==> a <= b
  {
    assert a > b ==> a * m > b * m;
  }

  lemma QuotientBelow(x: int, d: int, b: int)
    requires d > 0 && 0 <= x < b * d
    ensures 0 <= x / d < b && x / d * d <= x
  {
    var q := x / d;
    assert x == q * d + x % d;
    MulCancel(q, b, d);
    MulCancel(-1, q, d);
  }

  lemma QuotientLe(a: int, b: int)
    requires a >= 0 && b > 0
    ensures 0 <= a / b <= a
  {
    MulLe(1, b, a + 1);
    QuotientBelow(a, b, a + 1);
  }

  function Div32(a: u32, b: u32): u32
    requires b > 0
  {
    QuotientLe(a, b);
    a / b
  }

  // ----- the end of ikcp_input

  function SlowStart(c: Cc, mss: u32): Cc {
    c.(cwnd := Add32(c.cwnd, 1), incr := Add32(c.incr, mss))
  }

  function Avoidance(c: Cc, mss: u32): Cc
    requires mss > 0
  {
    var incr0 := if c.incr < mss then mss else c.incr;
    var incr := Add32(incr0, Add32(Div32(Mul32(mss, mss), incr0), mss / 16));
    if Mul32(Add32(c.cwnd, 1), mss) <= incr then
      c.(cwnd := Div32(Sub32(Add32(incr, mss), 1), mss), incr := incr)
    else c.(incr := incr)
  }

  function Cap(c: Cc, rmtWnd: u32, mss: u32): Cc {
    if c.cwnd > rmtWnd then c.(cwnd := rmtWnd, incr := Mul32(rmtWnd, mss)) else c
  }

  /** What `ikcp_input` does after `snd_una` has advanced. */
  function OnAdvance(c: Cc, rmtWnd: u32, mss: u32): Cc
    requires mss > 0
  {
    if c.cwnd < rmtWnd then
      Cap(if c.cwnd < c.ssthresh then SlowStart(c, mss) else Avoidance(c, mss), rmtWnd, mss)
    else c
  }

  // ----- the end of ikcp_flush

  function Halved(n: u32): u32 {
    Max(n / 2, THRESH_MIN)
  }

  function OnFastResend(c: Cc, flight: u32, resent: u32, mss: u32): Cc {
    var cwnd := Add32(Halved(flight), resent);
    Cc(cwnd, Mul32(cwnd, mss), Halved(flight))
  }

  function OnLoss(cwndUsed: u32, mss: u32): Cc {
    Cc(1, mss, Halved(cwndUsed))
  }

  /** `fast`: some segment was resent early; `lost`: some segment timed out. */
  function OnFlush(c: Cc, fast: bool, lost: bool, flight: u32, cwndUsed: u32, resent: u32, mss: u32): Cc {
    var c1 := if fast then OnFastResend(c, flight, resent, mss) else c;
    var c2 := if lost then OnLoss(cwndUsed, mss) else c1;
    if c2.cwnd < 1 then c2.(cwnd := 1, incr := mss) else c2
  }

  // ----- the coupling of cwnd and incr

  /** Every window that can arise, times the segment size, fits 32 bits.
      `limit` is the largest window that a fast resend may set. */
  ghost predicate NoWrap(mss: u32, limit: nat) {
    0 < mss && 0xFFFF <= limit && (limit + 3) * mss < TWO32
  }

  ghost predicate Coupled(c: Cc, mss: u32, limit: nat) {
    (c.cwnd - 1) * mss < c.incr < (c.cwnd + 1) * mss && c.ssthresh >= THRESH_MIN && c.cwnd <= limit
  }

  lemma SmallProduct(a: int, m: int, limit: int)
    requires 0 <= a <= limit + 2 && 0 < m && (limit + 3) * m < TWO32
    ensures 0 <= a * m < TWO32 && a * m + m < TWO32
  {
    MulLe(0, a, m);
    MulLe(a + 1, limit + 3, m);
    assert a * m + m == (a + 1) * m;
  }

  /** The additive increase is less than a segment, unless `incr` is small. */
  lemma HalfBound(mss: int, incr: int, q: int)
    requires 0 < mss && 2 * mss <= incr && 0 <= q && q * incr <= mss * mss
    ensures 2 * q <= mss
  {
    MulLe(2 * mss, incr, q);
    assert (2 * q) * mss == (2 * mss) * q;
    MulCancel(2 * q, mss, mss);
  }

  lemma IncreaseSum(incr: int, mss: int, cwnd: int, q: int)
    requires 0 < mss && 2 <= cwnd && incr < (cwnd + 1) * mss && 0 <= q < mss && q * incr <= mss * mss
    ensures incr + q + mss / 16 < (cwnd + 2) * mss
  {
    assert (cwnd + 1) * mss == cwnd * mss + mss && (cwnd + 2) * mss == cwnd * mss + 2 * mss;
    if incr >= cwnd * mss {
      MulLe(2, cwnd, mss);
      HalfBound(mss, incr, q);
    }
  }

  lemma MulLess(a: int, b: int, m: int)
    requires 0 < m && 0 < a < b
    ensures 0 <= a * m < m * b
  {}

  lemma IncreaseBound(incr: int, mss: int, cwnd: int)
    requires 0 < mss && 2 <= cwnd && (cwnd - 1) * mss < incr < (cwnd + 1) * mss
    ensures mss < incr && 0 <= mss * mss / incr < mss
    ensures incr + mss * mss / incr + mss / 16 < (cwnd + 2) * mss
  {
    MulLe(1, cwnd - 1, mss);
    MulLess(mss, incr, mss);
    QuotientBelow(mss * mss, incr, mss);
    IncreaseSum(incr, mss, cwnd, mss * mss / incr);
  }

  lemma CeilBounds(x: int, m: int)
    requires 0 < x && 0 < m
    ensures ((x + m - 1) / m - 1) * m < x <= (x + m - 1) / m * m
  {
    var q := (x + m - 1) / m;
    assert x + m - 1 == q * m + (x + m - 1) % m;
    assert (q - 1) * m == q * m - m;
  }

  lemma SlowStartCoupled(c: Cc, mss: u32, limit: nat)
    requires NoWrap(mss, limit) && Coupled(c, mss, limit)
    ensures var c' := SlowStart(c, mss);
      c'.cwnd == c.cwnd + 1 && (c'.cwnd - 1) * mss < c'.incr < (c'.cwnd + 1) * mss
  {
    SmallProduct(c.cwnd + 1, mss, limit);
    assert (c.cwnd + 1 - 1) * mss == (c.cwnd - 1) * mss + mss;
    assert (c.cwnd + 2) * mss == (c.cwnd + 1) * mss + mss;
  }

  lemma MssSquare(mss: u32, limit: nat)
    requires NoWrap(mss, limit)
    ensures 0 < mss * mss < TWO32
  {
    MulLe(0x1_0000, limit + 3, mss);
    assert mss < 0x1_0000;
    MulLe(mss, 0x1_0000, mss);
  }

  lemma MulExact(a: u32, b: u32)
    requires 0 <= a * b < TWO32
    ensures Mul32(a, b) == a * b
  {}

  /** `Avoidance` without wrap-around: `q` is what the additive increase adds. */
  lemma AvoidanceExact(c: Cc, mss: u32, q: u32, next: u32, top: u32)
    requires 0 < mss < c.incr && c.cwnd + 1 < TWO32
    requires q == Div32(Mul32(mss, mss), c.incr) && next == Mul32(c.cwnd + 1, mss)
    requires c.incr + q + mss / 16 < top && top + mss < TWO32
    ensures var incr := c.incr + q + mss / 16;
      Avoidance(c, mss) ==
        if next <= incr then c.(cwnd := Div32(incr + mss - 1, mss), incr := incr) else c.(incr := incr)
  {
    hide Mul32, Div32;
  }

  /** Rounding `incr` up to whole segments couples it to the new window. */
  lemma RoundedCoupled(cwnd: int, incr: int, mss: int)
    requires 0 < mss && (cwnd + 1) * mss <= incr < (cwnd + 2) * mss && cwnd >= 2
    ensures var cwnd' := (incr + mss - 1) / mss;
      cwnd < cwnd' <= cwnd + 2 && (cwnd' - 1) * mss < incr < (cwnd' + 1) * mss
  {
    MulLe(1, cwnd + 1, mss);
    CeilBounds(incr, mss);
    var cwnd' := (incr + mss - 1) / mss;
    MulCancel(cwnd' - 1, cwnd + 2, mss);
    MulCancel(cwnd + 1, cwnd', mss);
    assert (cwnd' + 1) * mss == cwnd' * mss + mss;
  }

  lemma AvoidanceCoupled(c: Cc, mss: u32, limit: nat)
    requires NoWrap(mss, limit) && Coupled(c, mss, limit) && c.cwnd >= 2
    ensures var c' := Avoidance(c, mss);
      c.cwnd <= c'.cwnd <= c.cwnd + 2 && (c'.cwnd - 1) * mss < c'.incr < (c'.cwnd + 1) * mss
  {
    hide Avoidance, Mul32;
    IncreaseBound(c.incr, mss, c.cwnd);
    assert 0 <= (c.cwnd + 1) * mss && (c.cwnd + 2) * mss + mss < TWO32 by {
      SmallProduct(c.cwnd + 2, mss, limit);
      SmallProduct(c.cwnd + 1, mss, limit);
    }
    MssSquare(mss, limit);
    MulExact(mss, mss);
    MulExact(c.cwnd + 1, mss);
    AvoidanceExact(c, mss, mss * mss / c.incr, (c.cwnd + 1) * mss, (c.cwnd + 2) * mss);
    var incr := c.incr + mss * mss / c.incr + mss / 16;
    if (c.cwnd + 1) * mss <= incr {
      RoundedCoupled(c.cwnd, incr, mss);
    }
  }

  lemma CapCoupled(c: Cc, rmtWnd: u32, mss: u32, limit: nat)
    requires NoWrap(mss, limit) && rmtWnd <= 0xFFFF
    requires (c.cwnd - 1) * mss < c.incr < (c.cwnd + 1) * mss && c.ssthresh >= THRESH_MIN
    ensures Coupled(Cap(c, rmtWnd, mss), mss, limit)
  {
    SmallProduct(rmtWnd, mss, limit);
    assert (rmtWnd + 1) * mss == rmtWnd * mss + mss;
    assert (rmtWnd - 1) * mss == rmtWnd * mss - mss;
  }

  /** An acknowledgement raises the window by at most two segments, never above
      the peer's window, and never lowers it; bytes and segments stay coupled. */
  lemma OnAdvanceCoupled(c: Cc, rmtWnd: u32, mss: u32, limit: nat)
    requires NoWrap(mss, limit) && Coupled(c, mss, limit) && rmtWnd <= 0xFFFF
    ensures var c' := OnAdvance(c, rmtWnd, mss);
      && Coupled(c', mss, limit)
      && c.cwnd <= c'.cwnd <= c.cwnd + 2
      && c'.cwnd <= Max(c.cwnd, rmtWnd)
      && c'.ssthresh == c.ssthresh
  {
    hide Mul32, Div32, NoWrap;
    if c.cwnd < rmtWnd {
      if c.cwnd < c.ssthresh {
        SlowStartCoupled(c, mss, limit);
        CapCoupled(SlowStart(c, mss), rmtWnd, mss, limit);
      } else {
        AvoidanceCoupled(c, mss, limit);
        CapCoupled(Avoidance(c, mss), rmtWnd, mss, limit);
      }
    }
  }

  // ----- the growth, exactly

  /** The additive increase in bytes. */
  function Additive(incr: int, mss: int): int
    requires incr > 0
  {
    mss * mss / incr + mss / 16
  }

  /** The number `w` of whole segments that `bytes` need. */
  predicate Segments(w: int, bytes: int, mss: int) {
    (w - 1) * mss < bytes <= w * mss
  }

  lemma SlowStartExact(c: Cc, rmtWnd: u32, mss: u32, limit: nat)
    requires NoWrap(mss, limit) && Coupled(c, mss, limit) && rmtWnd <= 0xFFFF
    requires c.cwnd < rmtWnd && c.cwnd < c.ssthresh
    ensures OnAdvance(c, rmtWnd, mss) == Cc(c.cwnd + 1, c.incr + mss, c.ssthresh)
  {
    SmallProduct(c.cwnd + 1, mss, limit);
  }

  lemma AvoidanceGives(c: Cc, mss: u32, limit: nat)
    requires NoWrap(mss, limit) && Coupled(c, mss, limit) && c.cwnd >= 2
    ensures c.incr > mss
    ensures var incr, c' := c.incr + Additive(c.incr, mss), Avoidance(c, mss);
      && c'.incr == incr && c'.ssthresh == c.ssthresh
      && if (c.cwnd + 1) * mss <= incr then Segments(c'.cwnd, incr, mss) else c'.cwnd == c.cwnd
  {
    hide Avoidance, Mul32;
    IncreaseBound(c.incr, mss, c.cwnd);
    assert 0 <= (c.cwnd + 1) * mss && (c.cwnd + 2) * mss + mss < TWO32 by {
      SmallProduct(c.cwnd + 2, mss, limit);
      SmallProduct(c.cwnd + 1, mss, limit);
    }
    MssSquare(mss, limit);
    MulExact(mss, mss);
    MulExact(c.cwnd + 1, mss);
    AvoidanceExact(c, mss, mss * mss / c.incr, (c.cwnd + 1) * mss, (c.cwnd + 2) * mss);
    CeilBounds(c.incr + Additive(c.incr, mss), mss);
  }

  /** The window grows from `c` to `c'`, in unbounded arithmetic: not at all at the peer's window; by one
      segment below `ssthresh`; beyond it by a fraction of a segment, rounded up to whole segments when
      enough has come together, and never beyond the peer's window. */
  ghost predicate Grows(c: Cc, c': Cc, rmtWnd: u32, mss: u32) {
    && c'.ssthresh == c.ssthresh
    && (c.cwnd >= rmtWnd ==> c' == c)
    && (c.cwnd < rmtWnd && c.cwnd < c.ssthresh ==> c'.cwnd == c.cwnd + 1 && c'.incr == c.incr + mss)
    && (c.ssthresh <= c.cwnd < rmtWnd ==>
          && c.incr > 0
          && var incr := c.incr + Additive(c.incr, mss);
            if incr < (c.cwnd + 1) * mss then c'.cwnd == c.cwnd && c'.incr == incr
            else if incr <= rmtWnd * mss then Segments(c'.cwnd, incr, mss) && c'.incr == incr
            else c'.cwnd == rmtWnd && c'.incr == rmtWnd * mss)
  }

  /** What an advance of `snd_una` does to the window. */
  lemma OnAdvanceExact(c: Cc, rmtWnd: u32, mss: u32, limit: nat)
    requires NoWrap(mss, limit) && Coupled(c, mss, limit) && rmtWnd <= 0xFFFF
    ensures Grows(c, OnAdvance(c, rmtWnd, mss), rmtWnd, mss)
  {
    hide Mul32, Div32, NoWrap;
    if c.cwnd < rmtWnd {
      if c.cwnd < c.ssthresh {
        SlowStartExact(c, rmtWnd, mss, limit);
      } else {
        AvoidanceGives(c, mss, limit);
        CappedExact(c, Avoidance(c, mss), rmtWnd, mss, limit);
      }
    }
  }

  lemma CappedExact(c: Cc, d: Cc, rmtWnd: u32, mss: u32, limit: nat)
    requires NoWrap(mss, limit) && rmtWnd <= 0xFFFF && c.cwnd < rmtWnd && d.ssthresh == c.ssthresh
    requires if (c.cwnd + 1) * mss <= d.incr then Segments(d.cwnd, d.incr, mss) else d.cwnd == c.cwnd
    ensures var c' := Cap(d, rmtWnd, mss);
      && c'.ssthresh == c.ssthresh
      && if d.incr < (c.cwnd + 1) * mss then c' == d
         else if d.incr <= rmtWnd * mss then c' == d && Segments(c'.cwnd, d.incr, mss)
         else c'.cwnd == rmtWnd && c'.incr == rmtWnd * mss
  {
    SmallProduct(rmtWnd, mss, limit);
    MulExact(rmtWnd, mss);
    if (c.cwnd + 1) * mss <= d.incr {
      MulCancel(d.cwnd - 1, rmtWnd, mss);
      assert d.cwnd <= rmtWnd ==> d.cwnd * mss <= rmtWnd * mss by {
        if d.cwnd <= rmtWnd { MulLe(d.cwnd, rmtWnd, mss); }
      }
    }
  }

  /** Beyond `ssthresh` the window makes progress exactly if the segments have at least 16 bytes or `incr` is at
      most the square of their size. */
  lemma AdditivePositive(incr: int, mss: int)
    requires 0 < incr && 0 < mss
    ensures Additive(incr, mss) >= 0
    ensures Additive(incr, mss) > 0 <==> mss >= 16 || incr <= mss * mss
  {
    QuotientSign(mss * mss, incr);
  }

  /** An advance changes nothing exactly at the peer's window, and beyond `ssthresh` for segments of fewer
      than 16 bytes once `incr` exceeds the square of their size. */
  lemma GrowthStops(c: Cc, c': Cc, rmtWnd: u32, mss: u32, limit: nat)
    requires NoWrap(mss, limit) && Coupled(c, mss, limit) && Grows(c, c', rmtWnd, mss)
    ensures c' == c <==> c.cwnd >= rmtWnd || (c.cwnd >= c.ssthresh && mss < 16 && c.incr > mss * mss)
  {
    if c.ssthresh <= c.cwnd < rmtWnd {
      AdditivePositive(c.incr, mss);
    }
  }

  lemma QuotientSign(a: int, b: int)
    requires a >= 0 && b > 0
    ensures 0 <= a / b && (a / b > 0 <==> b <= a)
  {
    QuotientLe(a, b);
    var q := a / b;
    assert a == q * b + a % b;
    if q > 0 {
      MulLe(1, q, b);
    }
  }

  function Resent(fastresend: i32): u32 {
    if fastresend > 0 then fastresend else 0xFFFF_FFFF
  }

  lemma ExactWindow(cwnd: u32, mss: u32, ssthresh: u32, limit: nat)
    requires NoWrap(mss, limit) && cwnd <= limit && ssthresh >= THRESH_MIN
    ensures Coupled(Cc(cwnd, Mul32(cwnd, mss), ssthresh), mss, limit)
  {
    SmallProduct(cwnd, mss, limit);
    assert (cwnd + 1) * mss == cwnd * mss + mss;
    assert (cwnd - 1) * mss == cwnd * mss - mss;
  }

  /** After every flush the window is at least one segment, and coupled. */
  lemma OnFlushCoupled(c: Cc, fast: bool, lost: bool, flight: u32, cwndUsed: u32, fastresend: i32, mss: u32, limit: nat)
    requires NoWrap(mss, limit) && Coupled(c, mss, limit)
    requires flight <= 0xFFFF && 0x7FFF + fastresend <= limit
    ensures var c' := OnFlush(c, fast, lost, flight, cwndUsed, Resent(fastresend), mss);
      Coupled(c', mss, limit) && c'.cwnd >= 1
  {
    ExactWindow(1, mss, 2, limit);
    if fast {
      var cwnd := Add32(Halved(flight), Resent(fastresend));
      assert cwnd <= limit;
      ExactWindow(cwnd, mss, Halved(flight), limit);
    }
    assert (1 - 1) * mss < mss < (1 + 1) * mss;
  }

  /** The reactions to a loss, in unbounded arithmetic.  A timeout halves the window that was in use into
      `ssthresh` and starts again with one segment; otherwise a fast resend halves what is in flight
      and goes on with as many segments more as acknowledgements it took; otherwise nothing changes but
      that an empty window becomes one segment. */
  lemma OnFlushExact(c: Cc, fast: bool, lost: bool, flight: u32, cwndUsed: u32, fastresend: i32, mss: u32, limit: nat)
    requires NoWrap(mss, limit) && flight <= 0xFFFF && 0x7FFF + fastresend <= limit
    ensures var c' := OnFlush(c, fast, lost, flight, cwndUsed, Resent(fastresend), mss);
      && (lost ==> c' == Cc(1, mss, Max(cwndUsed / 2, 2)))
      && (!lost && fast ==>
            && c'.ssthresh == Max(flight / 2, 2)
            && c'.cwnd == c'.ssthresh + (if fastresend > 0 then fastresend else -1)
            && c'.incr == c'.cwnd * mss)
      && (!lost && !fast ==> c' == if c.cwnd >= 1 then c else Cc(1, mss, c.ssthresh))
  {
    if fast && !lost {
      var cwnd := Add32(Halved(flight), Resent(fastresend));
      assert 1 <= cwnd <= limit;
      SmallProduct(cwnd, mss, limit);
      MulExact(cwnd, mss);
    }
  }
}
