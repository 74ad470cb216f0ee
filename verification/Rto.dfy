/** Round-trip estimates and retransmission timeouts over whole runs: how large they
    grow, and when a retransmission time is in the future. */
module Retransmission {
  import opened Serial
  import opened KcpTypes
  import opened KcpSpec
  import opened Codec
  import opened AnyBytes
  import opened Timers

  // ------------------------------------------------------- the round-trip estimate

  predicate RttWithin(bound: nat, t: Rtt) {
    0 <= t.srtt <= bound && 0 <= t.rttval <= bound
  }

  predicate RtoOk(cfg: Config, t: Rtt) {
    cfg.minrto <= t.rto <= RTO_MAX
  }

  /** The estimator on unbounded integers. */
  function PlainEstimate(cfg: Config, t: Rtt, rtt: nat): Rtt {
    var srtt := if t.srtt == 0 then rtt else Max((7 * t.srtt + rtt) / 8, 1);
    var rttval := if t.srtt == 0 then rtt / 2
                  else (3 * t.rttval + (if rtt < t.srtt then t.srtt - rtt else rtt - t.srtt)) / 4;
    Rtt(srtt, rttval, Wrap32(Bound(cfg.minrto, srtt + Max(cfg.interval, 4 * rttval), RTO_MAX)))
  }

  /** Samples of at most bound keep both estimates at most bound, and no intermediate
      value of ikcp_update_ack overflows: it computes what it would on unbounded integers. */
  lemma EstimateBounds(cfg: Config, t: Rtt, rtt: nat, bound: nat)
    requires ValidConfig(cfg) && 8 * bound < HALF && rtt <= bound && RttWithin(bound, t)
    ensures UpdateAck(cfg, t, rtt) == PlainEstimate(cfg, t, rtt) && RttWithin(bound, UpdateAck(cfg, t, rtt))
  {
    var u := PlainEstimate(cfg, t, rtt);
    assert RttWithin(bound, u);
    SmallDiff(7 * t.srtt);
    SmallDiff(7 * t.srtt + rtt);
    SmallDiff(3 * t.rttval);
    SmallDiff(rtt - t.srtt);
    SmallDiff(u.rttval);
    WrapsNot(4 * u.rttval);
    WrapsNot(u.srtt + Max(cfg.interval, 4 * u.rttval));
    hide Wrap32, Signed32;
  }

  /** The timeout is clamped last, on unsigned values, so that no overflow before matters. */
  lemma TimeoutClamped(cfg: Config, t: Rtt, rtt: nat)
    requires ValidConfig(cfg)
    ensures RtoOk(cfg, UpdateAck(cfg, t, rtt))
  {
    var u := UpdateAck(cfg, t, rtt);
    var rto := Bound(cfg.minrto, Wrap32(u.srtt + Max(cfg.interval, Wrap32(4 * u.rttval))), RTO_MAX);
    WrapsNot(rto);
  }

  /** The age of every ack the call accepts as a sample is at most bound. */
  ghost predicate SamplesWithin(bound: nat, c: Pcb, call: Call) {
    call.CallInput? ==>
      forall w :: w in Parse(c.cfg.conv, call.bytes).wires && w.cmd == CMD_ACK ==> TimeDiff(c.clock.current, w.ts) <= bound
  }

  ghost predicate RunSamplesWithin(bound: nat, cfg: Config, calls: seq<Call>)
    requires ValidConfig(cfg)
  {
    calls != [] ==>
      && RunSamplesWithin(bound, cfg, calls[..|calls| - 1])
      && SamplesWithin(bound, AfterCalls(cfg, calls[..|calls| - 1]), calls[|calls| - 1])
  }

  lemma {:induction false} WiresKeepRtt(c: InCtx, ws: seq<Wire>, bound: nat)
    requires ValidConfig(c.s.cfg) && 8 * bound < HALF
    requires forall w :: w in ws && w.cmd == CMD_ACK ==> TimeDiff(c.s.clock.current, w.ts) <= bound
    ensures RttWithin(bound, c.s.rtt) ==> RttWithin(bound, InputWires(Wrapping, c, ws).s.rtt)
    decreases |ws|
  {
    if ws != [] && RttWithin(bound, c.s.rtt) {
      var d := InputWire(Wrapping, c, ws[0]);
      var rtt := TimeDiff(c.s.clock.current, ws[0].ts);
      if ws[0].cmd == CMD_ACK && rtt >= 0 {
        EstimateBounds(c.s.cfg, c.s.rtt, rtt, bound);
      }
      WiresKeepRtt(d, ws[1..], bound);
    }
  }

  lemma {:induction false} WiresKeepRto(c: InCtx, ws: seq<Wire>)
    requires ValidConfig(c.s.cfg) && RtoOk(c.s.cfg, c.s.rtt)
    ensures RtoOk(c.s.cfg, InputWires(Wrapping, c, ws).s.rtt)
    decreases |ws|
  {
    if ws != [] {
      var rtt := TimeDiff(c.s.clock.current, ws[0].ts);
      if ws[0].cmd == CMD_ACK && rtt >= 0 {
        TimeoutClamped(c.s.cfg, c.s.rtt, rtt);
      }
      WiresKeepRto(InputWire(Wrapping, c, ws[0]), ws[1..]);
    }
  }

  /** rx_rto stays in [rx_minrto, 60000] in every run, whatever bytes arrive. */
  lemma {:induction false} RtoClampedInRuns(cfg: Config, calls: seq<Call>)
    requires ValidConfig(cfg)
    ensures RtoOk(cfg, AfterCalls(cfg, calls).rtt)
  {
    if calls != [] {
      var n := |calls| - 1;
      RtoClampedInRuns(cfg, calls[..n]);
      var c := AfterCalls(cfg, calls[..n]);
      if calls[n].CallInput? {
        WiresKeepRto(InCtx(c, false, 0), Parse(cfg.conv, calls[n].bytes).wires);
      } else {
        OthersKeepRtt(c, calls[n]);
      }
    }
  }

  lemma OthersKeepRtt(c: Pcb, call: Call)
    requires c.cfg.mss > 0 && !call.CallInput?
    ensures AfterCall(c, call).rtt == c.rtt
  {
  }

  /** With samples in [0, bound] and 8 * bound < 2^31, neither estimate ever passes
      bound, so by EstimateBounds nothing in ikcp_update_ack overflows. */
  lemma {:induction false} EstimatesBoundedInRuns(cfg: Config, calls: seq<Call>, bound: nat)
    requires ValidConfig(cfg) && 8 * bound < HALF && RunSamplesWithin(bound, cfg, calls)
    ensures RttWithin(bound, AfterCalls(cfg, calls).rtt)
  {
    if calls != [] {
      var n := |calls| - 1;
      EstimatesBoundedInRuns(cfg, calls[..n], bound);
      var c := AfterCalls(cfg, calls[..n]);
      if calls[n].CallInput? {
        WiresKeepRtt(InCtx(c, false, 0), Parse(cfg.conv, calls[n].bytes).wires, bound);
      } else {
        OthersKeepRtt(c, calls[n]);
      }
    }
  }

  // --------------------------------------------------------- a segment's timeout

  function Pow2(n: nat): (p: nat)
    ensures p >= 1
  {
    if n == 0 then 1 else 2 * Pow2(n - 1)
  }

  /** The largest timeout a segment can have after xmit transmissions. */
  function RtoLimit(copy: Copy, xmit: nat): nat {
    match copy
    case Basic => RTO_MAX * xmit
    case Extended => if xmit == 0 then 0 else RTO_MAX * Pow2(xmit - 1)
  }

  /** The timeout of a transmitted segment is within its limit, and positive as long
      as the limit says that it cannot have wrapped. */
  predicate SegOk(copy: Copy, g: SndSeg) {
    g.xmit > 0 ==> g.rto <= RtoLimit(copy, g.xmit) && (RtoLimit(copy, g.xmit) < 0x1_0000_0000 ==> g.rto > 0)
  }

  ghost predicate SegsOk(copy: Copy, buf: seq<SndSeg>) {
    forall g :: g in buf ==> SegOk(copy, g)
  }

  lemma WrapLe(x: int)
    requires x >= 0
    ensures Wrap32(x) <= x
  {
  }

  lemma LimitGrows(copy: Copy, xmit: nat)
    requires xmit > 0
    ensures RtoLimit(copy, xmit) + RTO_MAX <= RtoLimit(copy, xmit + 1)
    ensures copy.Extended? ==> RtoLimit(copy, xmit + 1) == 2 * RtoLimit(copy, xmit) && RTO_MAX <= RtoLimit(copy, xmit)
  {
    assert RTO_MAX * (2 * Pow2(xmit - 1)) == 2 * (RTO_MAX * Pow2(xmit - 1));
  }

  /** One backoff step adds at most rx_rto in the first copy, and at most doubles
      the larger of the two timeouts in the second. */
  lemma BackoffBounds(cfg: Config, rxRto: u32, rto: u32)
    requires rxRto <= RTO_MAX
    ensures match cfg.copy
            case Basic => Backoff(cfg, rxRto, rto) <= rto + rxRto
            case Extended => Backoff(cfg, rxRto, rto) <= rto + Max(rto, rxRto)
    ensures rto > 0 && rto + Max(rto, rxRto) < 0x1_0000_0000 ==> Backoff(cfg, rxRto, rto) > 0
  {
    match cfg.copy
    case Basic => WrapLe(rto + (if cfg.nodelay == 0 then rxRto else rxRto / 2));
    case Extended =>
      if cfg.nodelay == 0 {
        WrapLe(rto + Max(rto, rxRto));
      } else {
        WrapLe(rto + TruncDiv(if cfg.nodelay < 2 then Signed32(rto) else Signed32(rxRto), 2));
      }
  }

  /** A visit of the transmission loop keeps the bound. */
  lemma TouchKeepsLimit(cfg: Config, current: int, rxRto: u32, g: SndSeg)
    requires 0 < rxRto <= RTO_MAX && SegOk(cfg.copy, g)
    ensures SegOk(cfg.copy, Touch(Wrapping, cfg, current, rxRto, g))
  {
    if g.xmit > 0 {
      LimitGrows(cfg.copy, g.xmit);
      BackoffBounds(cfg, rxRto, g.rto);
    }
  }

  /** After a visit the segment has been transmitted, unless the 32-bit count of its
      transmissions has just wrapped. */
  lemma TouchTransmits(cfg: Config, current: int, rxRto: u32, g: SndSeg)
    ensures Touch(Wrapping, cfg, current, rxRto, g).xmit >= 1
       <==> !(g.xmit == 0xffff_ffff && (Judge(Wrapping, cfg, current, g).Timeout? || Judge(Wrapping, cfg, current, g).Fast?))
  {
  }

  /** How far ahead a visit that transmits the segment sets its retransmission time. */
  function NextOffset(cfg: Config, current: int, rxRto: u32, g: SndSeg): (off: int)
    requires !Judge(Wrapping, cfg, current, g).Keep?
  {
    match Judge(Wrapping, cfg, current, g)
    case First => rxRto + (if cfg.nodelay == 0 then rxRto / 8 else 0)
    case Timeout => Backoff(cfg, rxRto, g.rto)
    case _ => g.rto
  }

  /** After a visit the retransmission time is in the future exactly when the segment
      was left alone, or its new timeout is positive and at most 2^31. */
  lemma FutureExactly(cfg: Config, current: int, rxRto: u32, g: SndSeg)
    requires 0 < rxRto <= RTO_MAX
    ensures TimeDiff(current, Touch(Wrapping, cfg, current, rxRto, g).resendts) < 0
       <==> Judge(Wrapping, cfg, current, g).Keep? || 0 < NextOffset(cfg, current, rxRto, g) <= 0x8000_0000
  {
    if !Judge(Wrapping, cfg, current, g).Keep? {
      DeadlineAhead(current, NextOffset(cfg, current, rxRto, g));
    }
  }

  lemma TouchAllKeepsLimit(cfg: Config, current: int, rxRto: u32, buf: seq<SndSeg>)
    requires 0 < rxRto <= RTO_MAX && SegsOk(cfg.copy, buf)
    ensures SegsOk(cfg.copy, TouchAll(Wrapping, cfg, current, rxRto, buf))
  {
    var touched := TouchAll(Wrapping, cfg, current, rxRto, buf);
    forall i | 0 <= i < |touched|
      ensures SegOk(cfg.copy, touched[i])
    {
      assert buf[i] in buf;
      TouchKeepsLimit(cfg, current, rxRto, buf[i]);
    }
  }

  lemma {:induction false} AdmitKeepsLimit(s: Sender, window: nat, current: int, rto: u32, copy: Copy)
    requires SegsOk(copy, s.buf)
    ensures SegsOk(copy, Admit(Wrapping, s, window, current, rto).buf)
    decreases |s.queue|
  {
    if Diff(Wrapping, s.nxt, Wrap32(s.una + window)) < 0 && s.queue != [] {
      AdmitKeepsLimit(s.(queue := s.queue[1..], nxt := Wrap32(s.nxt + 1),
                         buf := s.buf + [SndSeg(s.nxt, s.queue[0], current, rto, 0, 0)]), window, current, rto, copy);
    }
  }

  lemma {:induction false} UnaKeepsLimit(buf: seq<SndSeg>, una: int, copy: Copy)
    requires SegsOk(copy, buf)
    ensures SegsOk(copy, ParseUna(Wrapping, buf, una))
  {
    if buf != [] && Diff(Wrapping, una, buf[0].sn) > 0 {
      UnaKeepsLimit(buf[1..], una, copy);
    }
  }

  lemma {:induction false} AckKeepsLimit(buf: seq<SndSeg>, sn: int, copy: Copy)
    requires SegsOk(copy, buf)
    ensures SegsOk(copy, RemoveAcked(Wrapping, buf, sn))
  {
    if buf != [] && sn != buf[0].sn && Diff(Wrapping, sn, buf[0].sn) >= 0 {
      AckKeepsLimit(buf[1..], sn, copy);
    }
  }

  lemma {:induction false} FastackKeepsLimit(buf: seq<SndSeg>, sn: int, copy: Copy)
    requires SegsOk(copy, buf)
    ensures SegsOk(copy, CountSkipped(Wrapping, buf, sn))
  {
    if buf != [] && Diff(Wrapping, sn, buf[0].sn) >= 0 {
      assert buf[0] in buf;
      FastackKeepsLimit(buf[1..], sn, copy);
    }
  }

  lemma WireKeepsLimit(s: Sender, w: Wire, copy: Copy)
    requires SegsOk(copy, s.buf)
    ensures SegsOk(copy, InputSnd(Wrapping, s, w).buf)
  {
    UnaKeepsLimit(s.buf, w.una, copy);
    AckKeepsLimit(ParseUna(Wrapping, s.buf, w.una), w.sn, copy);
  }

  lemma {:induction false} WiresKeepLimit(c: InCtx, ws: seq<Wire>)
    requires SegsOk(c.s.cfg.copy, c.s.snd.buf)
    ensures SegsOk(c.s.cfg.copy, InputWires(Wrapping, c, ws).s.snd.buf)
    decreases |ws|
  {
    if ws != [] {
      WireKeepsLimit(c.s.snd, ws[0], c.s.cfg.copy);
      WiresKeepLimit(InputWire(Wrapping, c, ws[0]), ws[1..]);
    }
  }

  lemma InputKeepsLimit(c: Pcb, ws: seq<Wire>, ok: bool)
    requires SegsOk(c.cfg.copy, c.snd.buf)
    ensures SegsOk(c.cfg.copy, Input(Wrapping, c, ws, ok).snd.buf)
  {
    var d := InputWires(Wrapping, InCtx(c, false, 0), ws);
    WiresKeepLimit(InCtx(c, false, 0), ws);
    FastackKeepsLimit(d.s.snd.buf, d.maxack, c.cfg.copy);
  }

  lemma FlushKeepsLimit(c: Pcb)
    requires 0 < c.rtt.rto <= RTO_MAX && SegsOk(c.cfg.copy, c.snd.buf)
    ensures SegsOk(c.cfg.copy, Flush(Wrapping, c).s.snd.buf)
  {
    AdmitKeepsLimit(c.snd, SendWindow(c), c.clock.current, c.rtt.rto, c.cfg.copy);
    TouchAllKeepsLimit(c.cfg, c.clock.current, c.rtt.rto, Admitted(Wrapping, c).buf);
  }

  lemma CallKeepsLimit(c: Pcb, call: Call)
    requires ValidConfig(c.cfg) && RtoOk(c.cfg, c.rtt) && SegsOk(c.cfg.copy, c.snd.buf)
    ensures SegsOk(c.cfg.copy, AfterCall(c, call).snd.buf)
  {
    hide Send, Recv, Tick, KcpSpec.Flush, Input;
    match call
    case CallSend(msg) =>
    case CallRecv(len) =>
    case CallInput(bytes) =>
      var r := Parse(c.cfg.conv, bytes);
      InputKeepsLimit(c, r.wires, r.status == 0);
    case CallUpdate(now) =>
      FlushKeepsLimit(Ticked(Wrapping, c, now));
    case CallFlush =>
      FlushKeepsLimit(c);
  }

  /** In every run, whatever bytes arrive, a segment's timeout is at most 60000 ms
      per transmission in the first copy, and at most 60000 ms doubled per
      retransmission in the second. */
  lemma {:induction false} SegmentTimeoutsBounded(cfg: Config, calls: seq<Call>)
    requires ValidConfig(cfg)
    ensures SegsOk(cfg.copy, AfterCalls(cfg, calls).snd.buf)
  {
    if calls != [] {
      var n := |calls| - 1;
      SegmentTimeoutsBounded(cfg, calls[..n]);
      RtoClampedInRuns(cfg, calls[..n]);
      CallKeepsLimit(AfterCalls(cfg, calls[..n]), calls[n]);
    }
  }

  lemma VisitedInFuture(cfg: Config, current: int, rxRto: u32, g: SndSeg)
    requires 0 < rxRto <= RTO_MAX && SegOk(cfg.copy, g)
    requires RtoLimit(cfg.copy, Touch(Wrapping, cfg, current, rxRto, g).xmit) <= 0x8000_0000
    requires g.xmit != 0xffff_ffff
    ensures Touch(Wrapping, cfg, current, rxRto, g).xmit >= 1
    ensures TimeDiff(current, Touch(Wrapping, cfg, current, rxRto, g).resendts) < 0
  {
    var h := Touch(Wrapping, cfg, current, rxRto, g);
    TouchTransmits(cfg, current, rxRto, g);
    TouchKeepsLimit(cfg, current, rxRto, g);
    FutureExactly(cfg, current, rxRto, g);
  }

  /** One flush that runs to its end, visit by visit. */
  lemma FlushSchedulesSegment(c: Pcb, i: nat)
    requires ValidConfig(c.cfg) && RtoOk(c.cfg, c.rtt) && SegsOk(c.cfg.copy, c.snd.buf)
    requires c.cfg.copy.Basic? || c.clock.updated
    requires var buf := Admitted(Wrapping, c).buf; i < |buf| && buf[i].xmit != 0xffff_ffff
    ensures var d := Flush(Wrapping, c).s;
            && i < |d.snd.buf| && d.snd.buf[i].xmit >= 1
            && (RtoLimit(c.cfg.copy, d.snd.buf[i].xmit) <= 0x8000_0000
                ==> TimeDiff(d.clock.current, d.snd.buf[i].resendts) < 0)
  {
    var snd := Admitted(Wrapping, c);
    AdmitKeepsLimit(c.snd, SendWindow(c), c.clock.current, c.rtt.rto, c.cfg.copy);
    assert snd.buf[i] in snd.buf;
    TouchTransmits(c.cfg, c.clock.current, c.rtt.rto, snd.buf[i]);
    if RtoLimit(c.cfg.copy, Touch(Wrapping, c.cfg, c.clock.current, c.rtt.rto, snd.buf[i]).xmit) <= 0x8000_0000 {
      VisitedInFuture(c.cfg, c.clock.current, c.rtt.rto, snd.buf[i]);
    }
  }

  /** After a flush in any run, be it ikcp_flush or an ikcp_update that is due, every segment
      in snd_buf has been transmitted, and its retransmission time is in the future as long
      as its limit is at most 2^31: 35791 transmissions in the first copy, 16 in the second. */
  lemma FlushSchedules(cfg: Config, calls: seq<Call>, call: Call, i: nat)
    requires ValidConfig(cfg) && Flushes(AfterCalls(cfg, calls), call)
    requires var buf := Admitted(Wrapping, Before(AfterCalls(cfg, calls), call)).buf;
             i < |buf| && buf[i].xmit != 0xffff_ffff
    ensures var d := AfterCall(AfterCalls(cfg, calls), call);
            && i < |d.snd.buf| && d.snd.buf[i].xmit >= 1
            && (RtoLimit(cfg.copy, d.snd.buf[i].xmit) <= 0x8000_0000
                ==> TimeDiff(d.clock.current, d.snd.buf[i].resendts) < 0)
  {
    SegmentTimeoutsBounded(cfg, calls);
    RtoClampedInRuns(cfg, calls);
    FlushSchedulesSegment(Before(AfterCalls(cfg, calls), call), i);
  }

  /** The limits named above. */
  lemma LimitsReached()
    ensures RtoLimit(Basic, 35791) <= 0x8000_0000 < RtoLimit(Basic, 35792)
    ensures RtoLimit(Extended, 16) <= 0x8000_0000 < RtoLimit(Extended, 17)
  {
    assert Pow2(4) == 16;
    assert Pow2(8) == 256;
    assert Pow2(12) == 4096;
    assert Pow2(15) == 32768 && Pow2(16) == 65536;
  }

  // ------------------------------------------------- where the second copy fails

  /** Segment g after k timeouts in a row, each met when it falls due. */
  function Timeouts(cfg: Config, rxRto: u32, g: SndSeg, k: nat): SndSeg {
    if k == 0 then g
    else
      var h := Timeouts(cfg, rxRto, g, k - 1);
      Touch(Wrapping, cfg, h.resendts, rxRto, h)
  }

  /** In the second copy without nodelay every timeout doubles: after k of them the
      segment's timeout is the first one times 2^k. */
  lemma {:induction false} TimeoutsDouble(cfg: Config, rxRto: u32, g: SndSeg, k: nat)
    requires cfg.copy.Extended? && cfg.nodelay == 0 && g.xmit == 1 && 0 < rxRto == g.rto
    requires rxRto * Pow2(k) < 0x1_0000_0000 && k < 0xffff
    ensures var h := Timeouts(cfg, rxRto, g, k);
            h.xmit == k + 1 && h.rto == rxRto * Pow2(k)
  {
    if k > 0 {
      DoubleSplits(rxRto, k);
      TimeoutsDouble(cfg, rxRto, g, k - 1);
      TimeoutDoubles(cfg, rxRto, Timeouts(cfg, rxRto, g, k - 1));
    }
  }

  lemma TimeoutDoubles(cfg: Config, rxRto: u32, h: SndSeg)
    requires cfg.copy.Extended? && cfg.nodelay == 0 && 0 < h.xmit < 0x1_0000 && rxRto <= h.rto && 2 * h.rto < 0x1_0000_0000
    ensures Judge(Wrapping, cfg, h.resendts, h).Timeout?
    ensures var next := Touch(Wrapping, cfg, h.resendts, rxRto, h);
            next.xmit == h.xmit + 1 && next.rto == 2 * h.rto && next.resendts == Wrap32(h.resendts + 2 * h.rto)
  {
    assert TimeDiff(h.resendts, h.resendts) == 0;
  }

  lemma DoubleSplits(x: nat, k: nat)
    requires k > 0
    ensures x * Pow2(k) == 2 * (x * Pow2(k - 1)) && x <= x * Pow2(k - 1)
  {
    assert x * (2 * Pow2(k - 1)) == 2 * (x * Pow2(k - 1));
    assert x * (Pow2(k - 1) - 1) >= 0;
  }

  /** So after k > 0 timeouts the new retransmission time is in the future exactly
      when rx_rto * 2^k is at most 2^31. */
  lemma SecondCopyFutureExactly(cfg: Config, rxRto: u32, g: SndSeg, k: nat)
    requires cfg.copy.Extended? && cfg.nodelay == 0 && g.xmit == 1 && 0 < rxRto == g.rto <= RTO_MAX
    requires rxRto * Pow2(k) < 0x1_0000_0000 && 0 < k < 0xffff
    ensures TimeDiff(Timeouts(cfg, rxRto, g, k - 1).resendts, Timeouts(cfg, rxRto, g, k).resendts) < 0
       <==> rxRto * Pow2(k) <= 0x8000_0000
  {
    TimeoutsDouble(cfg, rxRto, g, k);
    DoubleSplits(rxRto, k);
    TimeoutsDouble(cfg, rxRto, g, k - 1);
    var h := Timeouts(cfg, rxRto, g, k - 1);
    assert TimeDiff(h.resendts, h.resendts) == 0;
    FutureExactly(cfg, h.resendts, rxRto, h);
    assert NextOffset(cfg, h.resendts, rxRto, h) == Timeouts(cfg, rxRto, g, k).rto;
  }
}
