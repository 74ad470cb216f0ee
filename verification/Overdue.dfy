/** A run of the second copy, from a fresh control block, in which a segment times out
    sixteen times and then looks overdue at once. */
module Overdue {
  import opened Serial
  import opened KcpTypes
  import opened KcpSpec
  import opened Codec
  import opened AnyBytes
  import opened Timers
  import opened Retransmission

  /** An ack whose echoed time stamp is 0. */
  function LateAck(cfg: Config): Wire {
    Wire(cfg.conv, CMD_ACK, 0, 128, 0, 0, 0, [])
  }

  /** Nothing has been sent yet, and the first ikcp_update was at 60000. */
  predicate Started(cfg: Config, c: Pcb, rto: u32) {
    && c.cfg == cfg && c.snd == Sender(0, 0, [], []) && c.cong.cwnd >= 1 && c.cong.rmtWnd == 128
    && c.clock == Clock(60000, 60000 + cfg.interval, true) && c.rtt.rto == rto
    && (rto == 200 ==> c.rtt.srtt == 0)
  }

  lemma StartsAt(cfg: Config)
    requires ValidConfig(cfg) && cfg.copy.Extended?
    ensures Started(cfg, AfterCall(Create(cfg), CallUpdate(60000)), 200)
  {
    var t := Ticked(Wrapping, Create(cfg), 60000);
    assert t.clock == Clock(60000, 60000 + cfg.interval, true);
    assert Admitted(Wrapping, t) == t.snd;
  }

  /** A first sample of a minute puts rx_rto at its upper bound. */
  lemma MinuteSample(cfg: Config, t: Rtt)
    requires ValidConfig(cfg) && t.srtt == 0
    ensures UpdateAck(cfg, t, 60000).rto == RTO_MAX
  {
  }

  lemma AckEncodable(cfg: Config)
    ensures Encodable(cfg.conv, LateAck(cfg))
  {
  }

  lemma AckTurn(cfg: Config, c: Pcb)
    requires ValidConfig(cfg) && Started(cfg, c, 200)
    ensures InputWire(Wrapping, InCtx(c, false, 0), LateAck(cfg))
         == InCtx(c.(cong := c.cong.(rmtWnd := 128), rtt := UpdateAck(cfg, c.rtt, 60000)), true, 0)
  {
    hide UpdateAck, TimeDiff, InputRcv, RemoveAcked;
    MinuteApart();
    assert ParseUna(Wrapping, [], 0) == [];
    assert InputSnd(Wrapping, c.snd, LateAck(cfg)) == c.snd;
    assert InputRcv(Wrapping, c.rcv, cfg.rcvWnd, LateAck(cfg)) == c.rcv by {
      RcvIgnoresAcks(c.rcv, cfg.rcvWnd, LateAck(cfg));
    }
    hide InputSnd;
  }

  lemma MinuteApart()
    ensures TimeDiff(60000, 0) == 60000 && TimeDiff(0, 0) == 0
  {
  }

  lemma RcvIgnoresAcks(r: Receiver, wnd: nat, w: Wire)
    requires w.cmd == CMD_ACK
    ensures InputRcv(Wrapping, r, wnd, w) == r
  {
  }

  lemma NothingSkipped(d: Pcb)
    requires d.snd == Sender(0, 0, [], [])
    ensures FinishInput(Wrapping, InCtx(d, true, 0), 0, true) == d
  {
    hide TimeDiff;
    MinuteApart();
  }

  lemma AckSlows(cfg: Config, c: Pcb)
    requires ValidConfig(cfg) && Started(cfg, c, 200)
    ensures Started(cfg, AfterCall(c, CallInput(EncodeAll([LateAck(cfg)]))), RTO_MAX)
  {
    hide UpdateAck, Parse, EncodeAll, Encodable, LateAck, InputWire, InputWires, FinishInput;
    var w, c0 := LateAck(cfg), InCtx(c, false, 0);
    AckEncodable(cfg);
    ParseEncode(cfg.conv, [w]);
    MinuteSample(cfg, c.rtt);
    AckTurn(cfg, c);
    OneWire(c0, w);
    NothingSkipped(c.(cong := c.cong.(rmtWnd := 128), rtt := UpdateAck(cfg, c.rtt, 60000)));
  }

  /** Before its first transmission, and after it. */
  function FirstSegment(cfg: Config): SndSeg {
    SndSeg(0, Frag(0, [0]), 60000 + cfg.interval, RTO_MAX, 0, 0)
  }

  function SentSegment(cfg: Config): SndSeg {
    FirstSegment(cfg).(xmit := 1, resendts := Wrap32(60000 + cfg.interval + RTO_MAX + RTO_MAX / 8))
  }

  /** g is all there is to send. */
  predicate Lone(cfg: Config, c: Pcb, g: SndSeg) {
    c.cfg == cfg && c.snd.queue == [] && c.snd.buf == [g] && c.rtt.rto == RTO_MAX && c.clock.updated
  }

  lemma SendsByte(cfg: Config, c: Pcb)
    requires ValidConfig(cfg) && cfg.copy.Extended? && Started(cfg, c, RTO_MAX)
    ensures AfterCall(c, CallSend([0])) == c.(snd := Sender(0, 0, [Frag(0, [0])], []))
  {
    var msg: seq<byte> := [0];
    assert msg[0..] == msg && msg[..1] == msg && msg[1..] == [];
    assert Cut(cfg.mss, msg, 1, cfg.stream) == [Frag(0, msg)] + Cut(cfg.mss, msg[1..], 0, cfg.stream);
  }

  lemma NumbersOne(cfg: Config, t: Pcb)
    requires ValidConfig(cfg) && t.cfg == cfg && t.snd == Sender(0, 0, [Frag(0, [0])], [])
    requires t.cong.cwnd >= 1 && t.cong.rmtWnd == 128 && t.clock.current == 60000 + cfg.interval && t.rtt.rto == RTO_MAX
    ensures Admitted(Wrapping, t) == Sender(0, 1, [], [FirstSegment(cfg)])
  {
    var window, s1 := SendWindow(t), Sender(0, 1, [], [FirstSegment(cfg)]);
    assert 1 <= window <= 128;
    assert Wrap32(window) == window && TimeDiff(0, window) < 0;
    hide SendWindow, TimeDiff;
    assert [Frag(0, [0])][1..] == [] && [] + [FirstSegment(cfg)] == [FirstSegment(cfg)];
    assert Admit(Wrapping, s1, window, t.clock.current, RTO_MAX) == s1;
  }

  lemma SecondTick(cfg: Config, s: Pcb)
    requires ValidConfig(cfg) && s.cfg == cfg && s.clock == Clock(60000, 60000 + cfg.interval, true)
    ensures Ticked(Wrapping, s, 60000 + cfg.interval) == s.(clock := Clock(60000 + cfg.interval, 60000 + 2 * cfg.interval, true))
    ensures FlushDue(Wrapping, s, 60000 + cfg.interval)
  {
  }

  lemma FirstSent(cfg: Config, t: Pcb)
    requires ValidConfig(cfg) && t.cfg == cfg && cfg.nodelay == 0 && t.clock.current == 60000 + cfg.interval
    ensures TouchAll(Wrapping, cfg, t.clock.current, RTO_MAX, [FirstSegment(cfg)]) == [SentSegment(cfg)]
  {
    assert Touch(Wrapping, cfg, t.clock.current, RTO_MAX, FirstSegment(cfg)) == SentSegment(cfg);
  }

  lemma FirstFlush(cfg: Config, c: Pcb)
    requires ValidConfig(cfg) && cfg.copy.Extended? && cfg.nodelay == 0 && Started(cfg, c, RTO_MAX)
    ensures var d := AfterCall(c.(snd := Sender(0, 0, [Frag(0, [0])], [])), CallUpdate(60000 + cfg.interval));
            Lone(cfg, d, SentSegment(cfg)) && d.clock.tsFlush == 60000 + 2 * cfg.interval
  {
    hide Ticked, FlushDue, Admitted, FlushCong, ProbeTimer, FlushWires, LinkDies, TouchAll, FirstSegment, SentSegment;
    var s := c.(snd := Sender(0, 0, [Frag(0, [0])], []));
    SecondTick(cfg, s);
    NumbersOne(cfg, Ticked(Wrapping, s, 60000 + cfg.interval));
    FirstSent(cfg, Ticked(Wrapping, s, 60000 + cfg.interval));
  }

  lemma DueTick(cfg: Config, c: Pcb, now: u32)
    requires ValidConfig(cfg) && c.cfg == cfg && c.clock.updated && TimeDiff(now, c.clock.tsFlush) >= 10000
    ensures Ticked(Wrapping, c, now) == c.(clock := Clock(now, Wrap32(now + cfg.interval), true)) && FlushDue(Wrapping, c, now)
  {
    DeadlineAhead(now, cfg.interval);
    WrapsNot(now);
  }

  /** ikcp_update at the time a lone segment falls due. */
  lemma OneTimeout(cfg: Config, c: Pcb, g: SndSeg)
    requires ValidConfig(cfg) && cfg.copy.Extended? && Lone(cfg, c, g) && 0 <= g.resendts < 0x1_0000_0000
    requires TimeDiff(g.resendts, c.clock.tsFlush) >= 10000
    ensures var d := AfterCall(c, CallUpdate(g.resendts));
            && Lone(cfg, d, Touch(Wrapping, cfg, g.resendts, RTO_MAX, g))
            && d.clock.current == g.resendts && d.clock.tsFlush == Wrap32(g.resendts + cfg.interval)
  {
    hide Ticked, FlushDue, FlushCong, ProbeTimer, FlushWires, LinkDies, Touch;
    var t := Ticked(Wrapping, c, g.resendts);
    DueTick(cfg, c, g.resendts);
    assert Admitted(Wrapping, t) == t.snd;
    assert TouchAll(Wrapping, cfg, g.resendts, RTO_MAX, [g]) == [Touch(Wrapping, cfg, g.resendts, RTO_MAX, g)];
  }

  /** The lone segment has timed out k times.  Until the sixteenth the time it falls due
      next is far enough ahead for ikcp_update to flush then. */
  ghost predicate TimedOut(cfg: Config, c: Pcb, k: nat) {
    var g := Timeouts(cfg, RTO_MAX, SentSegment(cfg), k);
    && Lone(cfg, c, g) && 0 <= g.resendts < 0x1_0000_0000
    && (k < 16 ==> TimeDiff(g.resendts, c.clock.tsFlush) >= 10000)
    && (k > 0 ==> c.clock.current == Timeouts(cfg, RTO_MAX, SentSegment(cfg), k - 1).resendts)
  }

  lemma SixteenDoublings()
    ensures Pow2(15) == 32768 && Pow2(16) == 65536
  {
    assert Pow2(4) == 16;
    assert Pow2(8) == 256;
    assert Pow2(12) == 4096;
  }

  lemma PowersGrow(k: nat)
    requires 0 < k <= 15
    ensures 2 <= Pow2(k) <= 32768
    decreases 15 - k
  {
    if k < 15 {
      PowersGrow(k + 1);
    } else {
      SixteenDoublings();
    }
  }

  lemma FarAhead(t: int, off: nat, interval: nat)
    requires interval <= 5000 && 120000 <= off < 0x8000_0000
    ensures TimeDiff(Wrap32(t + off), Wrap32(t + interval)) >= 10000
  {
    TimeDiffExact(t + off, t + interval);
  }

  lemma NextTimeout(cfg: Config, c: Pcb, k: nat)
    requires ValidConfig(cfg) && cfg.copy.Extended? && cfg.nodelay == 0 && TimedOut(cfg, c, k) && k < 16
    ensures c.snd.buf != []
    ensures var d := AfterCall(c, CallUpdate(c.snd.buf[0].resendts)); TimedOut(cfg, d, k + 1)
  {
    hide Timeouts, Touch, TimeDiff, Pow2, AfterCall;
    SixteenDoublings();
    if k > 0 {
      PowersGrow(k);
    }
    if k < 15 {
      PowersGrow(k + 1);
    }
    StepOf(cfg, k);
    var g, h := SentSegment(cfg), Timeouts(cfg, RTO_MAX, SentSegment(cfg), k);
    OneTimeout(cfg, c, h);
    if k < 15 {
      FarAhead(h.resendts, RTO_MAX * Pow2(k + 1), cfg.interval);
    }
  }

  lemma StepOf(cfg: Config, k: nat)
    requires cfg.copy.Extended? && cfg.nodelay == 0 && k < 16 && (k > 0 ==> Pow2(k) <= 32768)
    ensures var h := Timeouts(cfg, RTO_MAX, SentSegment(cfg), k);
            var next := Timeouts(cfg, RTO_MAX, SentSegment(cfg), k + 1);
            && next == Touch(Wrapping, cfg, h.resendts, RTO_MAX, h)
            && next.resendts == Wrap32(h.resendts + RTO_MAX * Pow2(k + 1))
  {
    hide Touch, TimeDiff;
    TimeoutsDouble(cfg, RTO_MAX, SentSegment(cfg), k);
    DoubleSplits(RTO_MAX, k + 1);
    TimeoutDoubles(cfg, RTO_MAX, Timeouts(cfg, RTO_MAX, SentSegment(cfg), k));
  }

  /** The first four calls: ikcp_update a minute after the clock's zero, an ack that echoes
      time 0, a send, and the ikcp_update that transmits it. */
  function Opening(cfg: Config): seq<Call>
    requires cfg.interval <= 5000
  {
    [CallUpdate(60000), CallInput(EncodeAll([LateAck(cfg)])), CallSend([0]), CallUpdate(60000 + cfg.interval)]
  }

  lemma OpeningSends(cfg: Config)
    requires ValidConfig(cfg) && cfg.copy.Extended? && cfg.nodelay == 0
    ensures TimedOut(cfg, AfterCalls(cfg, Opening(cfg)), 0)
  {
    hide AfterCall, Started, EncodeAll, LateAck, SentSegment;
    var calls := Opening(cfg);
    assert calls[..4] == calls && AfterCalls(cfg, calls[..0]) == Create(cfg);
    AfterNext(cfg, calls, 0);
    StartsAt(cfg);
    AfterNext(cfg, calls, 1);
    AckSlows(cfg, AfterCalls(cfg, calls[..1]));
    AfterNext(cfg, calls, 2);
    SendsByte(cfg, AfterCalls(cfg, calls[..2]));
    AfterNext(cfg, calls, 3);
    FirstFlush(cfg, AfterCalls(cfg, calls[..2]));
    SentLater(cfg);
  }

  lemma SentLater(cfg: Config)
    requires ValidConfig(cfg)
    ensures TimeDiff(SentSegment(cfg).resendts, 60000 + 2 * cfg.interval) >= 10000 && 0 <= SentSegment(cfg).resendts < 0x1_0000_0000
    ensures SentSegment(cfg).xmit == 1 && SentSegment(cfg).rto == RTO_MAX
  {
  }

  /** From call i on, each call is ikcp_update at the time the one segment falls due. */
  ghost predicate UpdatesWhenDue(cfg: Config, calls: seq<Call>, i: nat)
    requires ValidConfig(cfg)
  {
    forall k :: i <= k < |calls| ==>
      var c := AfterCalls(cfg, calls[..k]);
      |c.snd.buf| == 1 && 0 <= c.snd.buf[0].resendts < 0x1_0000_0000 && calls[k] == CallUpdate(c.snd.buf[0].resendts)
  }

  lemma {:induction false} TimeOutTimes(cfg: Config, k: nat) returns (calls: seq<Call>)
    requires ValidConfig(cfg) && cfg.copy.Extended? && cfg.nodelay == 0 && k <= 16
    ensures |calls| == 4 + k && Opening(cfg) <= calls && UpdatesWhenDue(cfg, calls, 4)
    ensures TimedOut(cfg, AfterCalls(cfg, calls), k)
  {
    hide AfterCall, Timeouts, SentSegment, Opening, TimeDiff;
    if k == 0 {
      OpeningSends(cfg);
      calls := Opening(cfg);
      OpeningIsFour(cfg);
    } else {
      var before := TimeOutTimes(cfg, k - 1);
      var c := AfterCalls(cfg, before);
      calls := before + [CallUpdate(c.snd.buf[0].resendts)];
      assert calls[..|before|] == before;
      NextTimeout(cfg, c, k - 1);
      assert forall j :: 0 <= j < |before| ==> calls[..j] == before[..j];
    }
  }

  lemma OpeningIsFour(cfg: Config)
    requires cfg.interval <= 5000
    ensures |Opening(cfg)| == 4
  {
  }

  /** In every configuration of the second copy without nodelay there is a run in which a
      segment is sent with the largest rx_rto and times out sixteen times: its timeout is
      then 60000 * 2^16, which passes 2^31, and right after that flush it looks overdue, so
      that the next flush sends it again. */
  lemma SixteenTimeoutsFail(cfg: Config) returns (calls: seq<Call>)
    requires ValidConfig(cfg) && cfg.copy.Extended? && cfg.nodelay == 0
    ensures |calls| == 20 && Opening(cfg) <= calls && UpdatesWhenDue(cfg, calls, 4)
    ensures var c := AfterCalls(cfg, calls);
            && |c.snd.buf| == 1 && c.snd.buf[0].xmit == 17 && c.snd.buf[0].rto == 3932160000
            && TimeDiff(c.clock.current, c.snd.buf[0].resendts) >= 0
  {
    calls := TimeOutTimes(cfg, 16);
    hide Timeouts, TimeDiff, Pow2, AfterCalls, SentSegment, UpdatesWhenDue;
    SixteenDoublings();
    SentLater(cfg);
    TimeoutsDouble(cfg, RTO_MAX, SentSegment(cfg), 16);
    SecondCopyFutureExactly(cfg, RTO_MAX, SentSegment(cfg), 16);
  }
}
