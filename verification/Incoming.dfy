/** What one ikcp_input does to the peer's window, the congestion window and the round-trip
    estimate. */
module Incoming {
  import opened Serial
  import opened KcpTypes
  import opened KcpSpec
  import opened AnyBytes
  import opened CongestionWindow

  // ------------------------------------------------------------- the peer's window

  lemma {:induction false} WiresTell(c: InCtx, ws: seq<Wire>)
    ensures var d := InputWires(Wrapping, c, ws).s;
            d.cong == c.s.cong.(rmtWnd := if ws == [] then c.s.cong.rmtWnd else ws[|ws| - 1].wnd)
            && d.cfg == c.s.cfg && d.clock == c.s.clock
    decreases |ws|
  {
    if ws != [] {
      hide InputSnd, InputRcv, InputRtt;
      WiresTell(InputWire(Wrapping, c, ws[0]), ws[1..]);
    }
  }

  // --------------------------------------------------------- the congestion window

  /** The windows after an ikcp_input whose last segment told window wnd.  They grow only if
      snd_una has moved, and no window is grown that is not below the peer's.  Below the
      threshold it grows by one segment.  Above it incr grows by mss * mss / incr + mss / 16;
      once that makes another segment cwnd follows: in the first copy by one, in the second to
      incr rounded up, but not past the peer's window. */
  predicate GrownTo(cfg: Config, c: Congestion, wnd: u32, moved: bool, d: Congestion)
    requires cfg.mss > 0 && (c.cwnd >= c.ssthresh && c.cwnd < wnd ==> c.incr > 0)
  {
    && d.ssthresh == c.ssthresh && d.rmtWnd == wnd
    && (!moved || c.cwnd >= wnd ==> d.cwnd == c.cwnd && d.incr == c.incr)
    && (moved && c.cwnd < wnd && c.cwnd < c.ssthresh ==> d.cwnd == c.cwnd + 1 && d.incr == c.incr + cfg.mss)
    && (moved && c.ssthresh <= c.cwnd < wnd ==>
          var incr := c.incr + cfg.mss * cfg.mss / c.incr + cfg.mss / 16;
          var segments := if cfg.copy.Basic? then c.cwnd + 1 else (incr + cfg.mss - 1) / cfg.mss;
          if incr < (c.cwnd + 1) * cfg.mss then d.cwnd == c.cwnd && d.incr == incr
          else if segments <= wnd then d.cwnd == segments && d.incr == incr
          else d.cwnd == wnd && d.incr == wnd * cfg.mss)
  }

  lemma GrowsExactly(cfg: Config, c: Congestion)
    requires 0 < cfg.mss <= 0xffff && CongOk(cfg, c)
    ensures c.cwnd >= c.ssthresh && c.cwnd < c.rmtWnd ==> c.incr > 0
    ensures GrownTo(cfg, c, c.rmtWnd, true, Grow(cfg, c))
  {
    WindowInBytes(cfg, c);
    if c.cwnd < c.rmtWnd {
      SlowFits(cfg.mss, c.rmtWnd - 1);
      WrapsNot(c.rmtWnd * cfg.mss);
      if c.cwnd < c.ssthresh {
        FastGrowth(cfg, c);
      } else {
        AvoidsExactly(cfg, c);
      }
    }
  }

  lemma AvoidsExactly(cfg: Config, c: Congestion)
    requires 0 < cfg.mss <= 0xffff && CongOk(cfg, c) && c.ssthresh <= c.cwnd < c.rmtWnd
    ensures c.incr > 0
    ensures var incr := c.incr + cfg.mss * cfg.mss / c.incr + cfg.mss / 16;
            var segments := if cfg.copy.Basic? then c.cwnd + 1 else (incr + cfg.mss - 1) / cfg.mss;
            var g := GrowSlowly(cfg.copy, cfg.mss, c);
            && g.incr == incr && g.cwnd == (if incr < (c.cwnd + 1) * cfg.mss then c.cwnd else segments)
            && g.ssthresh == c.ssthresh && g.rmtWnd == c.rmtWnd
  {
    StepBound(cfg, c);
    var incr := c.incr + cfg.mss * cfg.mss / c.incr + cfg.mss / 16;
    SlowExact(cfg, c, incr);
    NextSegments(c.cwnd, cfg.mss);
    if incr >= (c.cwnd + 1) * cfg.mss {
      CeilBounds(incr, cfg.mss, c.cwnd);
      WrapsNot((incr + cfg.mss - 1) / cfg.mss);
      WrapsNot(c.cwnd + 1);
    }
  }

  lemma GrowsAfter(c: Pcb, ws: seq<Wire>, ok: bool)
    requires 0 < c.cfg.mss <= 0xffff && CongOk(c.cfg, c.cong)
    ensures var d := Input(Wrapping, c, ws, ok);
            var wnd := if ws == [] then c.cong.rmtWnd else ws[|ws| - 1].wnd;
            && (c.cong.cwnd >= c.cong.ssthresh && c.cong.cwnd < wnd ==> c.cong.incr > 0)
            && GrownTo(c.cfg, c.cong, wnd, ok && TimeDiff(d.snd.una, c.snd.una) > 0, d.cong)
  {
    hide InputWires, TimeDiff, Grow, ParseFastack;
    WiresTell(InCtx(c, false, 0), ws);
    var e := InputWires(Wrapping, InCtx(c, false, 0), ws).s;
    GrowsExactly(c.cfg, e.cong);
    Ungrown(c.cfg, e.cong);
    Regrown(c.cfg, c.cong, e.cong.rmtWnd);
  }

  /** The growth does not depend on the window told before. */
  lemma Regrown(cfg: Config, c: Congestion, wnd: u32)
    requires cfg.mss > 0 && (c.cwnd >= c.ssthresh && c.cwnd < wnd ==> c.incr > 0)
    ensures forall moved, d :: GrownTo(cfg, c.(rmtWnd := wnd), wnd, moved, d) <==> GrownTo(cfg, c, wnd, moved, d)
  {
  }

  /** One ikcp_input, in any run.  The peer's window is the one its last segment told; the
      congestion window grows only after a datagram without a parse error that moved
      snd_una forward. */
  lemma InputGrows(cfg: Config, calls: seq<Call>, ws: seq<Wire>, ok: bool)
    requires ValidConfig(cfg) && NoOverflow(cfg)
    ensures var c := AfterCalls(cfg, calls);
            var d := Input(Wrapping, c, ws, ok);
            var wnd := if ws == [] then c.cong.rmtWnd else ws[|ws| - 1].wnd;
            && (c.cong.cwnd >= c.cong.ssthresh && c.cong.cwnd < wnd ==> c.cong.incr > 0)
            && GrownTo(cfg, c.cong, wnd, ok && TimeDiff(d.snd.una, c.snd.una) > 0, d.cong)
  {
    CongestionInvariant(cfg, calls);
    GrowsAfter(AfterCalls(cfg, calls), ws, ok);
  }

  lemma Ungrown(cfg: Config, c: Congestion)
    requires cfg.mss > 0 && (c.cwnd >= c.ssthresh && c.cwnd < c.rmtWnd ==> c.incr > 0)
    ensures GrownTo(cfg, c, c.rmtWnd, false, c)
  {
  }

  // -------------------------------------------------------- the round-trip estimate

  /** The ages of the acks that are not from the future: the samples of the estimate. */
  function Samples(now: int, ws: seq<Wire>): seq<nat> {
    if ws == [] then []
    else
      var age := TimeDiff(now, ws[0].ts);
      (if ws[0].cmd == 82 && age >= 0 then [age] else []) + Samples(now, ws[1..])
  }

  /** The estimate after some samples, taken one by one. */
  function Estimated(cfg: Config, t: Rtt, samples: seq<nat>): Rtt
    decreases |samples|
  {
    if samples == [] then t else Estimated(cfg, UpdateAck(cfg, t, samples[0]), samples[1..])
  }

  lemma {:induction false} WiresEstimate(c: InCtx, ws: seq<Wire>)
    ensures InputWires(Wrapping, c, ws).s.rtt == Estimated(c.s.cfg, c.s.rtt, Samples(c.s.clock.current, ws))
    decreases |ws|
  {
    if ws != [] {
      hide InputSnd, InputRcv, UpdateAck, TimeDiff;
      WiresEstimate(InputWire(Wrapping, c, ws[0]), ws[1..]);
      var rest := Samples(c.s.clock.current, ws[1..]);
      var age := TimeDiff(c.s.clock.current, ws[0].ts);
      assert ws[0].cmd == 82 && age >= 0 ==> ([age] + rest)[1..] == rest;
      assert [] + rest == rest;
    }
  }

  /** An ikcp_input estimates from the ages of the acks in its datagram, in order, and from
      nothing else. */
  lemma InputEstimates(c: Pcb, ws: seq<Wire>, ok: bool)
    ensures Input(Wrapping, c, ws, ok).rtt == Estimated(c.cfg, c.rtt, Samples(c.clock.current, ws))
  {
    WiresEstimate(InCtx(c, false, 0), ws);
  }
}
