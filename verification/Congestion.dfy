/** The congestion window in every run: cwnd, counted in segments, and incr, the
    same window in bytes, never drift apart, and growth respects the peer's window. */
module CongestionWindow {
  import opened Basics
  import opened Serial
  import opened KcpTypes
  import opened KcpSpec
  import opened Codec
  import opened AnyBytes

  /** The fixed parameters under which no 32-bit product of the window code wraps. */
  predicate NoOverflow(cfg: Config) {
    cfg.mss <= 0xffff && (cfg.sndWnd / 2 + 2 + cfg.fastresend) * cfg.mss < 0x1_0000_0000
  }

  /** incr follows cwnd * mss: from above and by less than one segment in the first
      copy, on either side in the second. */
  predicate Tracks(cfg: Config, c: Congestion)
    requires cfg.mss > 0
  {
    match cfg.copy
    case Basic => c.incr / cfg.mss == c.cwnd
    case Extended => c.cwnd * cfg.mss - cfg.mss < c.incr < c.cwnd * cfg.mss + cfg.mss
  }

  predicate CongOk(cfg: Config, c: Congestion)
    requires cfg.mss > 0
  {
    c.ssthresh >= THRESH_MIN && c.rmtWnd < 0x1_0000 && Tracks(cfg, c)
  }

  lemma Quotient(x: int, n: int, q: int)
    requires n > 0
    ensures q * n <= x < q * n + n <==> x / n == q
  {
    var d := x / n;
    assert x == d * n + x % n;
    if q < d {
      MulMono(q + 1, d, n);
      assert (q + 1) * n == q * n + n;
    } else if q > d {
      MulMono(d + 1, q, n);
      assert (d + 1) * n == d * n + n;
    }
  }

  /** Below the smallest threshold the byte window is at least one segment. */
  lemma WindowInBytes(cfg: Config, c: Congestion)
    requires cfg.mss > 0 && Tracks(cfg, c)
    ensures c.cwnd * cfg.mss - cfg.mss < c.incr < c.cwnd * cfg.mss + cfg.mss
    ensures cfg.copy.Basic? ==> c.cwnd * cfg.mss <= c.incr
    ensures c.cwnd >= 2 ==> c.incr > cfg.mss
    ensures c.cwnd >= 2 && cfg.copy.Basic? ==> c.incr >= 2 * cfg.mss
  {
    Quotient(c.incr, cfg.mss, c.cwnd);
    if c.cwnd >= 2 {
      MulMono(2, c.cwnd, cfg.mss);
    }
  }

  lemma DivBelow(a: int, n: int, q: int)
    requires n > 0 && 0 <= a < q * n
    ensures 0 <= a / n < q
  {
    Quotient(a, n, a / n);
    if a / n >= q {
      MulMono(q, a / n, n);
    }
  }

  lemma Square(mss: int, incr: int)
    requires 0 < mss < incr
    ensures 0 <= mss * mss < mss * incr
  {
  }

  lemma HalfSquare(mss: int, incr: int)
    requires 0 < mss && 2 * mss <= incr
    ensures 0 <= mss * mss < (mss / 2 + 1) * incr
  {
    var h := mss / 2 + 1;
    MulMono(2 * mss, incr, h);
    MulMono(mss + 1, 2 * h, mss);
    assert (2 * mss) * h == (2 * h) * mss;
  }

  /** The additive increase of congestion avoidance is less than one segment. */
  lemma IncreaseBounds(mss: int, incr: int)
    requires 0 < mss < incr
    ensures 0 <= mss * mss / incr < mss
    ensures incr >= 2 * mss ==> mss * mss / incr <= mss / 2
  {
    Square(mss, incr);
    DivBelow(mss * mss, incr, mss);
    if incr >= 2 * mss {
      HalfSquare(mss, incr);
      DivBelow(mss * mss, incr, mss / 2 + 1);
    }
  }

  /** Congestion avoidance adds less than what would pass the next segment but one. */
  lemma StepBound(cfg: Config, c: Congestion)
    requires 0 < cfg.mss <= 0xffff && Tracks(cfg, c) && c.cwnd >= 2
    ensures c.incr > 0
    ensures c.incr <= c.incr + cfg.mss * cfg.mss / c.incr + cfg.mss / 16 < c.cwnd * cfg.mss + 2 * cfg.mss
  {
    var mss := cfg.mss;
    WindowInBytes(cfg, c);
    IncreaseBounds(mss, c.incr);
    MulMono(2, c.cwnd, mss);
  }

  /** No product of the avoidance branch wraps. */
  lemma SlowFits(mss: int, cwnd: int)
    requires 0 < mss <= 0xffff && 0 <= cwnd < 0xffff
    ensures 0 <= mss * mss < 0x1_0000_0000
    ensures 0 <= (cwnd + 1) * mss < (cwnd + 3) * mss < 0x1_0000_0000
  {
    MulMono(mss, 0xffff, mss);
    MulMono(mss, 0xffff, 0xffff);
    MulMono(cwnd + 3, 0x1_0001, mss);
    MulMono(mss, 0xffff, 0x1_0001);
    MulMono(0, cwnd + 1, mss);
    assert (cwnd + 3) * mss == (cwnd + 1) * mss + 2 * mss;
  }

  /** Rounding up, when it lands between the next segment and the next but one. */
  lemma CeilBounds(incr: int, mss: int, cwnd: int)
    requires mss > 0 && cwnd * mss + mss <= incr < cwnd * mss + 2 * mss
    ensures var next := (incr + mss - 1) / mss;
            cwnd < next <= cwnd + 2 && next * mss - mss < incr <= next * mss
  {
    var next := (incr + mss - 1) / mss;
    Quotient(incr + mss - 1, mss, next);
    NextSegments(cwnd, mss);
    if next <= cwnd {
      MulMono(next, cwnd, mss);
    }
    if next >= cwnd + 3 {
      MulMono(cwnd + 3, next, mss);
    }
  }

  /** The window after incr has grown. */
  lemma Promote(cfg: Config, c: Congestion, incr: u32)
    requires 0 < cfg.mss && Tracks(cfg, c) && c.incr <= incr && c.cwnd < 0xffff
    requires incr < c.cwnd * cfg.mss + 2 * cfg.mss
    ensures if (c.cwnd + 1) * cfg.mss <= incr
            then var next := if cfg.copy.Basic? then c.cwnd + 1 else (incr + cfg.mss - 1) / cfg.mss;
                 c.cwnd < next <= c.cwnd + 2 && Tracks(cfg, c.(cwnd := next, incr := incr))
            else Tracks(cfg, c.(incr := incr))
  {
    var mss := cfg.mss;
    WindowInBytes(cfg, c);
    NextSegments(c.cwnd, mss);
    if (c.cwnd + 1) * mss <= incr {
      Quotient(incr, mss, c.cwnd + 1);
      CeilBounds(incr, mss, c.cwnd);
    } else {
      Quotient(incr, mss, c.cwnd);
    }
  }

  lemma NextSegments(cwnd: int, mss: int)
    ensures (cwnd + 1) * mss == cwnd * mss + mss
    ensures (cwnd + 3) * mss == cwnd * mss + 3 * mss
  {
  }

  /** incr after one step of congestion avoidance. */
  function NextIncr(mss: nat, incr: u32): int
    requires incr > 0
  {
    incr + mss * mss / incr + mss / 16
  }

  /** In congestion avoidance nothing wraps. */
  lemma SlowExact(cfg: Config, c: Congestion, incr: int)
    requires 0 < cfg.mss <= 0xffff && Tracks(cfg, c) && 2 <= c.cwnd < 0xffff && c.incr > 0
    requires incr == c.incr + cfg.mss * cfg.mss / c.incr + cfg.mss / 16 < c.cwnd * cfg.mss + 2 * cfg.mss
    requires c.incr <= incr
    ensures 0 <= incr < 0x1_0000_0000
    ensures var next := if cfg.copy.Basic? then c.cwnd + 1 else (incr + cfg.mss - 1) / cfg.mss;
            GrowSlowly(cfg.copy, cfg.mss, c)
            == c.(incr := incr, cwnd := if (c.cwnd + 1) * cfg.mss <= incr then Wrap32(next) else c.cwnd)
  {
    var mss := cfg.mss;
    SlowFits(mss, c.cwnd);
    NextSegments(c.cwnd, mss);
    WrapsNot(mss * mss);
    WrapsNot(incr);
    WrapsNot(c.cwnd + 1);
    WrapsNot((c.cwnd + 1) * mss);
    WrapsNot(incr + mss - 1);
  }

  /** Congestion avoidance raises cwnd by at most two and incr by less than two segments,
      and no intermediate value reaches 2^32. */
  lemma SlowGrowth(cfg: Config, c: Congestion)
    requires 0 < cfg.mss <= 0xffff && CongOk(cfg, c) && c.ssthresh <= c.cwnd < c.rmtWnd
    ensures var g := GrowSlowly(cfg.copy, cfg.mss, c);
            Tracks(cfg, g) && c.cwnd <= g.cwnd <= c.cwnd + 2 && g == c.(cwnd := g.cwnd, incr := g.incr)
    ensures c.incr > 0 && GrowSlowly(cfg.copy, cfg.mss, c).incr == NextIncr(cfg.mss, c.incr)
    ensures c.incr <= NextIncr(cfg.mss, c.incr) < c.incr + 2 * cfg.mss
    ensures 0 <= cfg.mss * cfg.mss < 0x1_0000_0000 && 0 <= (c.cwnd + 1) * cfg.mss < 0x1_0000_0000
    ensures NextIncr(cfg.mss, c.incr) + cfg.mss - 1 < 0x1_0000_0000
  {
    StepBound(cfg, c);
    WindowInBytes(cfg, c);
    IncreaseBounds(cfg.mss, c.incr);
    SlowFits(cfg.mss, c.cwnd);
    NextSegments(c.cwnd, cfg.mss);
    var incr := c.incr + cfg.mss * cfg.mss / c.incr + cfg.mss / 16;
    SlowExact(cfg, c, incr);
    Promote(cfg, c, incr);
    if (c.cwnd + 1) * cfg.mss <= incr {
      WrapsNot(if cfg.copy.Basic? then c.cwnd + 1 else (incr + cfg.mss - 1) / cfg.mss);
    }
  }

  /** Slow start adds one segment to both counts. */
  lemma FastGrowth(cfg: Config, c: Congestion)
    requires 0 < cfg.mss <= 0xffff && Tracks(cfg, c) && c.cwnd < 0xffff
    ensures Wrap32(c.cwnd + 1) == c.cwnd + 1 && Wrap32(c.incr + cfg.mss) == c.incr + cfg.mss
    ensures Tracks(cfg, c.(cwnd := c.cwnd + 1, incr := c.incr + cfg.mss))
  {
    WindowInBytes(cfg, c);
    SlowFits(cfg.mss, c.cwnd);
    assert (c.cwnd + 1) * cfg.mss == c.cwnd * cfg.mss + cfg.mss;
    assert (c.cwnd + 3) * cfg.mss == c.cwnd * cfg.mss + 3 * cfg.mss;
    Quotient(c.incr, cfg.mss, c.cwnd);
    Quotient(c.incr + cfg.mss, cfg.mss, c.cwnd + 1);
  }

  /** A window of whole segments. */
  lemma WholeTracks(cfg: Config, c: Congestion)
    requires cfg.mss > 0 && c.incr == c.cwnd * cfg.mss
    ensures Tracks(cfg, c)
  {
    Quotient(c.incr, cfg.mss, c.cwnd);
  }

  /** One growth step keeps the window in step with its byte count and never takes
      it above the peer's window. */
  lemma GrowKeeps(cfg: Config, c: Congestion)
    requires 0 < cfg.mss <= 0xffff && CongOk(cfg, c)
    ensures var g := Grow(cfg, c);
            && CongOk(cfg, g) && g.rmtWnd == c.rmtWnd && c.cwnd <= g.cwnd <= c.cwnd + 2
            && (g.cwnd != c.cwnd ==> g.cwnd <= c.rmtWnd)
  {
    if c.cwnd < c.rmtWnd {
      SlowFits(cfg.mss, c.rmtWnd - 1);
      WrapsNot(c.rmtWnd * cfg.mss);
      WholeTracks(cfg, c.(cwnd := c.rmtWnd, incr := c.rmtWnd * cfg.mss));
      if c.cwnd < c.ssthresh {
        FastGrowth(cfg, c);
      } else {
        WindowInBytes(cfg, c);
        SlowGrowth(cfg, c);
      }
    }
  }

  /** A flush leaves at least one segment of window, and ssthresh at least two. */
  lemma AfterFlushKeeps(cfg: Config, c: Congestion, change: bool, lost: bool, inflight: u32, window: nat)
    requires ValidConfig(cfg) && NoOverflow(cfg) && CongOk(cfg, c) && inflight <= cfg.sndWnd && window <= cfg.sndWnd
    ensures var d := AfterFlush(cfg, c, change, lost, inflight, window);
            CongOk(cfg, d) && d.cwnd >= 1 && d.rmtWnd == c.rmtWnd
  {
    var one := c.(cwnd := 1, incr := cfg.mss);
    WrapsNot(cfg.mss);
    WholeTracks(cfg, one);
    if change {
      FastWindow(cfg, inflight);
      var ssthresh := Max(inflight / 2, THRESH_MIN);
      var cwnd := Wrap32(ssthresh + Resent(cfg));
      WrapsNot(cwnd * cfg.mss);
      WholeTracks(cfg, c.(cwnd := cwnd, incr := cwnd * cfg.mss));
    }
    WrapsNot(Max(window / 2, THRESH_MIN));
  }

  /** The window after a fast resend; with fast resend off its trigger count is
      2^32 - 1, and the sum wraps to one below the threshold. */
  lemma FastWindow(cfg: Config, inflight: u32)
    requires ValidConfig(cfg) && NoOverflow(cfg) && inflight <= cfg.sndWnd
    ensures var ssthresh := Max(inflight / 2, THRESH_MIN);
            var cwnd := Wrap32(ssthresh + Resent(cfg));
            && cwnd == (if cfg.fastresend > 0 then ssthresh + cfg.fastresend else ssthresh - 1)
            && cwnd >= 1 && 0 <= cwnd * cfg.mss < 0x1_0000_0000
  {
    var ssthresh := Max(inflight / 2, THRESH_MIN);
    assert ssthresh <= cfg.sndWnd / 2 + 2;
    var cwnd := if cfg.fastresend > 0 then ssthresh + cfg.fastresend else ssthresh - 1;
    MulMono(cwnd, cfg.sndWnd / 2 + 2 + cfg.fastresend, cfg.mss);
    MulMono(0, cwnd, cfg.mss);
    WrapShift(ssthresh + 0xffff_ffff, ssthresh - 1, 1);
    WrapsNot(ssthresh - 1);
    WrapsNot(ssthresh + cfg.fastresend);
    WrapsNot(cfg.fastresend);
  }

  /** Does cwnd count the whole segments in incr? */
  predicate Floored(cfg: Config, c: Congestion)
    requires cfg.mss > 0
  {
    c.incr / cfg.mss == c.cwnd
  }

  /** The first copy always counts whole segments; the second does not.  After a growth
      step of the second copy it does exactly when: nothing grew, or slow start did, and it
      did before; or cwnd stayed and incr has reached it; or cwnd was raised and the new
      incr is a whole number of segments, or past the peer's window. */
  lemma FlooredExactly(cfg: Config, c: Congestion)
    requires cfg.copy.Extended? && 0 < cfg.mss <= 0xffff && CongOk(cfg, c)
    ensures c.ssthresh <= c.cwnd ==> c.incr > 0
    ensures Floored(cfg, Grow(cfg, c))
       <==> if c.cwnd >= c.rmtWnd || c.cwnd < c.ssthresh then Floored(cfg, c)
            else if NextIncr(cfg.mss, c.incr) < (c.cwnd + 1) * cfg.mss then c.cwnd * cfg.mss <= NextIncr(cfg.mss, c.incr)
            else NextIncr(cfg.mss, c.incr) % cfg.mss == 0 || NextIncr(cfg.mss, c.incr) > c.rmtWnd * cfg.mss
  {
    WindowInBytes(cfg, c);
    if c.cwnd < c.rmtWnd {
      SlowFits(cfg.mss, c.rmtWnd - 1);
      WrapsNot(c.rmtWnd * cfg.mss);
      Quotient(c.rmtWnd * cfg.mss, cfg.mss, c.rmtWnd);
      if c.cwnd < c.ssthresh {
        FastGrowth(cfg, c);
        SlowStartFloors(cfg, c);
      } else {
        SlowFloors(cfg, c);
      }
    }
  }

  lemma SlowStartFloors(cfg: Config, c: Congestion)
    requires cfg.mss > 0
    ensures (c.incr + cfg.mss) / cfg.mss == c.cwnd + 1 <==> Floored(cfg, c)
  {
    Quotient(c.incr, cfg.mss, c.cwnd);
    Quotient(c.incr + cfg.mss, cfg.mss, c.cwnd + 1);
    assert (c.cwnd + 1) * cfg.mss == c.cwnd * cfg.mss + cfg.mss;
  }

  lemma SlowFloors(cfg: Config, c: Congestion)
    requires cfg.copy.Extended? && 0 < cfg.mss <= 0xffff && CongOk(cfg, c) && c.ssthresh <= c.cwnd < c.rmtWnd
    ensures c.incr > 0
    ensures var g := GrowSlowly(cfg.copy, cfg.mss, c);
            var incr := NextIncr(cfg.mss, c.incr);
            && g.incr == incr
            && (incr < (c.cwnd + 1) * cfg.mss ==> g.cwnd == c.cwnd && (Floored(cfg, g) <==> c.cwnd * cfg.mss <= incr))
            && (incr >= (c.cwnd + 1) * cfg.mss ==>
                  (Floored(cfg, g) <==> incr % cfg.mss == 0) && (g.cwnd > c.rmtWnd <==> incr > c.rmtWnd * cfg.mss))
  {
    StepBound(cfg, c);
    var incr, mss := NextIncr(cfg.mss, c.incr), cfg.mss;
    SlowExact(cfg, c, incr);
    NextSegments(c.cwnd, mss);
    if incr < (c.cwnd + 1) * mss {
      Quotient(incr, mss, c.cwnd);
    } else {
      CeilBounds(incr, mss, c.cwnd);
      var next := (incr + mss - 1) / mss;
      WrapsNot(next);
      CeilFloors(incr, mss, next);
      CeilAbove(incr, mss, next, c.rmtWnd);
    }
  }

  lemma CeilFloors(incr: int, mss: int, next: int)
    requires mss > 0 && incr >= 0 && next * mss - mss < incr <= next * mss
    ensures incr / mss == next <==> incr % mss == 0
  {
    Quotient(incr, mss, next);
    var q := incr / mss;
    assert incr == q * mss + incr % mss;
    assert (next - 1) * mss == next * mss - mss && (next + 1) * mss == next * mss + mss;
    if q < next {
      MulMono(q, next - 1, mss);
    } else if q > next {
      MulMono(next + 1, q, mss);
    }
  }

  lemma CeilAbove(incr: int, mss: int, next: int, bound: int)
    requires mss > 0 && next * mss - mss < incr <= next * mss
    ensures next > bound <==> incr > bound * mss
  {
    if next > bound {
      MulMono(bound, next - 1, mss);
      assert (next - 1) * mss == next * mss - mss;
    } else {
      MulMono(next, bound, mss);
    }
  }

  // ------------------------------------------------------------------ all runs

  /** Segments change nothing but the peer's window. */
  lemma {:induction false} WiresKeepCong(c: InCtx, ws: seq<Wire>)
    requires c.s.cfg.mss > 0 && CongOk(c.s.cfg, c.s.cong)
    ensures var d := InputWires(Wrapping, c, ws).s;
            d.cfg == c.s.cfg && CongOk(d.cfg, d.cong)
    decreases |ws|
  {
    if ws != [] {
      WiresKeepCong(InputWire(Wrapping, c, ws[0]), ws[1..]);
    }
  }

  lemma InputKeepsCong(c: Pcb, ws: seq<Wire>, ok: bool)
    requires 0 < c.cfg.mss <= 0xffff && CongOk(c.cfg, c.cong)
    ensures CongOk(c.cfg, Input(Wrapping, c, ws, ok).cong)
  {
    var d := InputWires(Wrapping, InCtx(c, false, 0), ws);
    WiresKeepCong(InCtx(c, false, 0), ws);
    GrowKeeps(c.cfg, d.s.cong);
  }

  lemma FlushKeepsCong(c: Pcb)
    requires ValidConfig(c.cfg) && NoOverflow(c.cfg) && CongOk(c.cfg, c.cong)
    requires var d := Flush(Wrapping, c).s.snd; Wrap32(d.nxt - d.una) <= c.cfg.sndWnd
    ensures var d := Flush(Wrapping, c).s;
            CongOk(c.cfg, d.cong) && (c.cfg.copy.Basic? || c.clock.updated ==> d.cong.cwnd >= 1)
  {
    if c.cfg.copy.Basic? || c.clock.updated {
      var snd := Admitted(Wrapping, c);
      AfterFlushKeeps(c.cfg, c.cong,
                      HasVerdict(Wrapping, c.cfg, c.clock.current, snd.buf, Fast), HasVerdict(Wrapping, c.cfg, c.clock.current, snd.buf, Timeout),
                      Wrap32(snd.nxt - snd.una), SendWindow(c));
    }
  }

  /** One call, whatever it is given. */
  lemma CallKeepsCong(c: Pcb, call: Call)
    requires ValidConfig(c.cfg) && NoOverflow(c.cfg) && CongOk(c.cfg, c.cong)
    requires var d := AfterCall(c, call).snd; Wrap32(d.nxt - d.una) <= c.cfg.sndWnd
    ensures var d := AfterCall(c, call);
            CongOk(c.cfg, d.cong) && (Flushes(c, call) ==> d.cong.cwnd >= 1)
  {
    hide Send, Recv, KcpSpec.Flush, Input;
    match call
    case CallSend(msg) =>
    case CallRecv(len) =>
    case CallInput(bytes) =>
      var r := Parse(c.cfg.conv, bytes);
      InputKeepsCong(c, r.wires, r.status == 0);
    case CallUpdate(now) =>
      if FlushDue(Wrapping, c, now) {
        FlushKeepsCong(Ticked(Wrapping, c, now));
      }
    case CallFlush =>
      FlushKeepsCong(c);
  }

  /** In every state reached by calls with arbitrary bytes, ssthresh is at least 2
      and the two counts of the window agree; every flush leaves cwnd at least 1. */
  lemma {:induction false} CongestionInvariant(cfg: Config, calls: seq<Call>)
    requires ValidConfig(cfg) && NoOverflow(cfg)
    ensures CongOk(cfg, AfterCalls(cfg, calls).cong)
    ensures calls != [] && Flushes(AfterCalls(cfg, calls[..|calls| - 1]), calls[|calls| - 1])
            ==> AfterCalls(cfg, calls).cong.cwnd >= 1
  {
    if calls == [] {
      WholeTracks(cfg, Create(cfg).cong);
    } else {
      var n := |calls| - 1;
      CongestionInvariant(cfg, calls[..n]);
      ShapeHolds(cfg, calls);
      InFlightFits(AfterCalls(cfg, calls));
      CallKeepsCong(AfterCalls(cfg, calls[..n]), calls[n]);
    }
  }

  lemma InFlightFits(c: Pcb)
    requires Shape(c)
    ensures Wrap32(c.snd.nxt - c.snd.una) <= c.cfg.sndWnd
  {
  }

  /** After the first flush cwnd never falls back to zero: the sender can always
      offer one segment of its own window. */
  lemma CwndStaysPositive(cfg: Config, calls: seq<Call>, call: Call)
    requires ValidConfig(cfg) && NoOverflow(cfg) && AfterCalls(cfg, calls).cong.cwnd >= 1
    ensures AfterCall(AfterCalls(cfg, calls), call).cong.cwnd >= 1
  {
    CongestionInvariant(cfg, calls);
    var c := AfterCalls(cfg, calls);
    if Flushes(c, call) {
      assert (calls + [call])[..|calls|] == calls;
      CongestionInvariant(cfg, calls + [call]);
    } else if call.CallInput? {
      var r := Parse(c.cfg.conv, call.bytes);
      WiresKeepWindow(InCtx(c, false, 0), r.wires);
      WiresKeepCong(InCtx(c, false, 0), r.wires);
      GrowKeeps(cfg, InputWires(Wrapping, InCtx(c, false, 0), r.wires).s.cong);
    }
  }

  lemma {:induction false} WiresKeepWindow(c: InCtx, ws: seq<Wire>)
    ensures InputWires(Wrapping, c, ws).s.cong.cwnd == c.s.cong.cwnd
    decreases |ws|
  {
    if ws != [] {
      WiresKeepWindow(InputWire(Wrapping, c, ws[0]), ws[1..]);
    }
  }

  // ------------------------------------------- the second copy rounds up: a witness

  /** The second copy with an mss of 100 bytes. */
  const HUNDRED: Config := Config(Extended, 7, 124, 100, 32, 128, 0, 100, 100, 0, 5, false, false, 20)

  /** Everything sent has been acknowledged, k segments so far. */
  predicate Idle(c: Pcb, k: u32, cong: Congestion) {
    c.cfg == HUNDRED && c.snd == Sender(k, k, [], []) && c.cong == cong && c.clock.updated
  }

  function UnaWire(una: u32): Wire {
    Wire(7, CMD_WINS, 0, 128, 0, 0, una, [])
  }

  /** One byte is sent, flushed and acknowledged. */
  function Round(una: u32): seq<Call> {
    [CallSend([0]), CallFlush, CallInput(EncodeAll([UnaWire(una)]))]
  }

  lemma AfterThree(cfg: Config, calls: seq<Call>, three: seq<Call>)
    requires ValidConfig(cfg) && |three| == 3
    ensures var c0 := AfterCalls(cfg, calls);
            var c1 := AfterCall(c0, three[0]);
            && c1.cfg.mss > 0
            && var c2 := AfterCall(c1, three[1]);
            c2.cfg.mss > 0 && AfterCalls(cfg, calls + three) == AfterCall(c2, three[2])
  {
    var a, b, all := calls + three[..1], calls + three[..2], calls + three;
    assert a[..|calls|] == calls && b[..|calls| + 1] == a && all[..|calls| + 2] == b;
    assert AfterCalls(cfg, a) == AfterCall(AfterCalls(cfg, calls), three[0]);
    assert AfterCalls(cfg, b) == AfterCall(AfterCalls(cfg, a), three[1]);
  }

  lemma SendsOne(c: Pcb, k: u32, cong: Congestion)
    requires Idle(c, k, cong)
    ensures AfterCall(c, CallSend([0])) == c.(snd := Sender(k, k, [Frag(0, [0])], []))
  {
    var msg: seq<byte> := [0];
    assert msg[0..] == msg && msg[..1] == msg && msg[1..] == [];
    assert Cut(100, msg, 1, false) == [Frag(0, msg)] + Cut(100, msg[1..], 0, false);
  }

  lemma FlushesOne(c: Pcb, k: u32, cong: Congestion)
    requires c.cfg == HUNDRED && c.snd == Sender(k, k, [Frag(0, [0])], []) && c.cong == cong && c.clock.updated
    requires k < 100 && 1 <= cong.cwnd && 1 <= cong.rmtWnd
    ensures var d := AfterCall(c, CallFlush);
            && d.cfg == HUNDRED && d.cong == cong && d.clock.updated
            && d.snd.una == k && d.snd.nxt == k + 1 && d.snd.queue == [] && |d.snd.buf| == 1 && d.snd.buf[0].sn == k
  {
    var g := AdmitsOne(c, k);
    FirstOnly(c, g);
    hide Admitted, HasVerdict, Touch, FlushWires, LinkDies, ProbeTimer, Wrap32;
  }

  lemma AdmitsOne(c: Pcb, k: u32) returns (g: SndSeg)
    requires c.cfg == HUNDRED && c.snd == Sender(k, k, [Frag(0, [0])], []) && k < 100
    requires 1 <= c.cong.cwnd && 1 <= c.cong.rmtWnd
    ensures g.sn == k && g.xmit == 0 && Admitted(Wrapping, c) == Sender(k, k + 1, [], [g])
  {
    g := SndSeg(k, Frag(0, [0]), c.clock.current, c.rtt.rto, 0, 0);
    var s1 := Sender(k, k + 1, [], [g]);
    assert [Frag(0, [0])][1..] == [] && [] + [g] == [g];
    SmallNumbers(k, SendWindow(c));
    hide TimeDiff, Wrap32, SendWindow;
    assert Admit(Wrapping, s1, SendWindow(c), c.clock.current, c.rtt.rto) == s1;
  }

  lemma SmallNumbers(k: nat, window: nat)
    requires k < 100 && 1 <= window <= 32
    ensures Wrap32(k + 1) == k + 1 && TimeDiff(k, Wrap32(k + window)) < 0
  {
    assert Wrap32(k + window) == k + window;
  }

  lemma FirstOnly(c: Pcb, g: SndSeg)
    requires g.xmit == 0
    ensures !HasVerdict(Wrapping, c.cfg, c.clock.current, [g], Fast)
    ensures !HasVerdict(Wrapping, c.cfg, c.clock.current, [g], Timeout)
  {
    assert Judge(Wrapping, c.cfg, c.clock.current, g) == First;
  }

  lemma AckedOne(c: Pcb, k: u32, cong: Congestion)
    requires c.cfg == HUNDRED && c.cong == cong && c.clock.updated && k < 100
    requires c.snd.una == k && c.snd.nxt == k + 1 && c.snd.queue == [] && |c.snd.buf| == 1 && c.snd.buf[0].sn == k
    ensures Idle(AfterCall(c, CallInput(EncodeAll([UnaWire(k + 1)]))), k + 1, Grow(HUNDRED, cong.(rmtWnd := 128)))
  {
    hide InputWire, Grow, Parse, EncodeAll, ParseFastack, UnaWire;
    var w := UnaWire(k + 1);
    UnaEncodable(k + 1);
    ParseEncode(7, [w]);
    var c0 := InCtx(c, false, 0);
    UnaTakesOne(c0, k);
    OneWire(c0, w);
    assert TimeDiff(k + 1, k) == 1;
  }

  lemma UnaEncodable(una: u32)
    ensures Encodable(7, UnaWire(una))
  {
  }

  lemma UnaTakesOne(c: InCtx, k: u32)
    requires c.s.snd.una == k && c.s.snd.nxt == k + 1 && c.s.snd.queue == [] && |c.s.snd.buf| == 1 && c.s.snd.buf[0].sn == k
    requires k < 100
    ensures var d := InputWire(Wrapping, c, UnaWire(k + 1));
            && d.s.snd == Sender(k + 1, k + 1, [], []) && d.flag == c.flag
            && d.s.cfg == c.s.cfg && d.s.clock == c.s.clock && d.s.cong == c.s.cong.(rmtWnd := 128)
  {
    var buf := c.s.snd.buf;
    assert TimeDiff(k + 1, k) == 1;
    assert buf[1..] == [] && ParseUna(Wrapping, buf, k + 1) == ParseUna(Wrapping, buf[1..], k + 1);
  }

  lemma RoundGrows(calls: seq<Call>, k: u32, cong: Congestion)
    requires ValidConfig(HUNDRED) && Idle(AfterCalls(HUNDRED, calls), k, cong)
    requires k < 100 && 1 <= cong.cwnd && 1 <= cong.rmtWnd
    ensures Idle(AfterCalls(HUNDRED, calls + Round(k + 1)), k + 1, Grow(HUNDRED, cong.(rmtWnd := 128)))
  {
    var c := AfterCalls(HUNDRED, calls);
    AfterThree(HUNDRED, calls, Round(k + 1));
    hide AfterCall, AfterCalls, Grow;
    SendsOne(c, k, cong);
    var c1 := AfterCall(c, CallSend([0]));
    FlushesOne(c1, k, cong);
    AckedOne(AfterCall(c1, CallFlush), k, cong);
  }

  /** A run of the second copy from ikcp_create, with an mss of 100 bytes, in which cwnd is
      not the number of whole segments in incr: the third growth step takes cwnd from 2 to
      4 while incr reaches 301. */
  lemma SecondCopyRoundsUp()
    ensures ValidConfig(HUNDRED) && NoOverflow(HUNDRED)
    ensures var c := AfterCalls(HUNDRED, [CallUpdate(0)] + Round(1) + Round(2) + Round(3));
            c.cong.cwnd == 4 && c.cong.incr == 301 && !Floored(HUNDRED, c.cong)
  {
    hide AfterCalls, Round, Idle;
    var start := [CallUpdate(0)];
    TwoRounds(start);
    ThirdRound(start + Round(1) + Round(2));
    IdleCong(AfterCalls(HUNDRED, start + Round(1) + Round(2) + Round(3)), 3, Congestion(4, 2, 301, 128));
  }

  lemma TwoRounds(start: seq<Call>)
    requires start == [CallUpdate(0)]
    ensures ValidConfig(HUNDRED) && Idle(AfterCalls(HUNDRED, start + Round(1) + Round(2)), 2, Congestion(2, 2, 256, 128))
  {
    FirstUpdate();
    hide AfterCalls, Round, Grow, Idle;
    StepOne();
    StepTwo();
    RoundGrows(start, 0, Congestion(1, 2, 100, 128));
    RoundGrows(start + Round(1), 1, Congestion(2, 2, 200, 128));
  }

  lemma ThirdRound(calls: seq<Call>)
    requires ValidConfig(HUNDRED) && Idle(AfterCalls(HUNDRED, calls), 2, Congestion(2, 2, 256, 128))
    ensures Idle(AfterCalls(HUNDRED, calls + Round(3)), 3, Congestion(4, 2, 301, 128))
  {
    hide AfterCalls, Round, Grow, Idle;
    StepThree();
    RoundGrows(calls, 2, Congestion(2, 2, 256, 128));
  }

  lemma IdleCong(c: Pcb, k: u32, cong: Congestion)
    requires Idle(c, k, cong)
    ensures c.cong == cong
  {
  }

  lemma StepOne()
    ensures Grow(HUNDRED, Congestion(1, 2, 100, 128)) == Congestion(2, 2, 200, 128)
  {
  }

  lemma StepTwo()
    ensures Grow(HUNDRED, Congestion(2, 2, 200, 128)) == Congestion(2, 2, 256, 128)
  {
  }

  lemma StepThree()
    ensures Grow(HUNDRED, Congestion(2, 2, 256, 128)) == Congestion(4, 2, 301, 128)
  {
  }

  lemma FirstUpdate()
    ensures Idle(AfterCalls(HUNDRED, [CallUpdate(0)]), 0, Congestion(1, 2, 100, 128))
  {
    var c := Create(HUNDRED);
    assert [CallUpdate(0)][..0] == [];
    var t := Ticked(Wrapping, c, 0);
    assert TimeDiff(0, 0) == 0 && FlushDue(Wrapping, c, 0);
    assert Admitted(Wrapping, t) == t.snd;
  }
}
