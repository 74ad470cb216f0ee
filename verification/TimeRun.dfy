/** Times: the machine on 32-bit times computes what the machine on unbounded times
    computes, modulo 2^32, as long as compared times are less than 2^31 apart.  With
    Refinement, which does the same for sequence numbers, that leads from an ideal
    machine to the C code. */
module TimeRun {
  import opened Serial
  import opened KcpTypes
  import opened KcpSpec
  import opened Packing
  import opened Endpoint
  import opened System
  import opened Delivery
  import opened Refinement
  import opened WrapRun

  // ------------------------------------------------------- the 32-bit view of times

  function ClockSeg(g: SndSeg): SndSeg {
    g.(resendts := Wrap32(g.resendts))
  }

  function ClockSegs(buf: seq<SndSeg>): (r: seq<SndSeg>)
    ensures |r| == |buf|
  {
    seq(|buf|, i requires 0 <= i < |buf| => ClockSeg(buf[i]))
  }

  function ClockAck(a: Ack): Ack {
    a.(ts := Wrap32(a.ts))
  }

  function ClockAcks(acks: seq<Ack>): (r: seq<Ack>)
    ensures |r| == |acks|
  {
    seq(|acks|, i requires 0 <= i < |acks| => ClockAck(acks[i]))
  }

  function ClockWire(w: Wire): Wire {
    w.(ts := Wrap32(w.ts))
  }

  function ClockWires(ws: seq<Wire>): (r: seq<Wire>)
    ensures |r| == |ws|
  {
    seq(|ws|, i requires 0 <= i < |ws| => ClockWire(ws[i]))
  }

  function ClockSnd(s: Sender): Sender {
    s.(buf := ClockSegs(s.buf))
  }

  function ClockRcv(r: Receiver): Receiver {
    r.(acks := ClockAcks(r.acks))
  }

  function ClockTimes(c: Clock): Clock {
    Clock(Wrap32(c.current), Wrap32(c.tsFlush), c.updated)
  }

  function ClockProbe(p: Probe): Probe {
    p.(ts := Wrap32(p.ts))
  }

  function ClockPcb(p: Pcb): Pcb {
    p.(snd := ClockSnd(p.snd), rcv := ClockRcv(p.rcv), probe := ClockProbe(p.probe), clock := ClockTimes(p.clock))
  }

  // -------------------------------------------------------------- one comparison

  lemma SinceAgrees(a: int, b: int)
    requires Near(a, b)
    ensures Since(Exact, Wrap32(a), Wrap32(b)) == Since(Ideal, a, b)
  {
    TimeDiffExact(a, b);
  }

  lemma AheadAgrees(t: int, d: int)
    ensures Clocked(Exact, Wrap32(t) + d) == Wrap32(Clocked(Ideal, t + d))
  {
    WrapShift(t + d, Wrap32(t) + d, t / 0x1_0000_0000);
  }

  // ------------------------------------------------------------- ikcp_update's clock

  /** The time ikcp_update is given is near the time of the next flush. */
  predicate TimelyClock(c: Clock, now: int) {
    c.updated ==> Near(now, c.tsFlush)
  }

  lemma TickClocks(c: Clock, interval: nat, now: int)
    requires interval <= 5000 && TimelyClock(c, now)
    ensures var (ideal, due) := Tick(Ideal, c, interval, now);
            Tick(Exact, ClockTimes(c), interval, Wrap32(now)) == (ClockTimes(ideal), due)
  {
    var ts0 := if c.updated then c.tsFlush else now;
    SinceAgrees(now, ts0);
    var slap0 := now - ts0;
    var ts1 := if slap0 >= 10000 || slap0 < -10000 then now else ts0;
    AheadAgrees(ts1, interval);
    AheadAgrees(now, interval);
    SinceAgrees(now, ts1 + interval);
  }

  // ------------------------------------------------------------------- one flush

  /** Every retransmission time, and the probe time if it is running, is near now. */
  ghost predicate TimelyFlush(p: Pcb) {
    && (p.cong.rmtWnd == 0 && p.probe.wait != 0 ==> Near(p.clock.current, p.probe.ts))
    && TimelySegs(p.clock.current, p.snd.buf)
  }

  ghost predicate TimelySegs(current: int, buf: seq<SndSeg>) {
    forall g :: g in buf && g.xmit > 0 ==> Near(current, g.resendts)
  }

  lemma JudgeClocks(cfg: Config, current: int, g: SndSeg)
    requires g.xmit > 0 ==> Near(current, g.resendts)
    ensures Judge(Exact, cfg, Wrap32(current), ClockSeg(g)) == Judge(Ideal, cfg, current, g)
  {
    if g.xmit > 0 {
      SinceAgrees(current, g.resendts);
    }
  }

  lemma TouchClocks(cfg: Config, current: int, rxRto: u32, g: SndSeg)
    requires g.xmit > 0 ==> Near(current, g.resendts)
    ensures Touch(Exact, cfg, Wrap32(current), rxRto, ClockSeg(g)) == ClockSeg(Touch(Ideal, cfg, current, rxRto, g))
  {
    JudgeClocks(cfg, current, g);
    match Judge(Ideal, cfg, current, g)
    case Keep =>
    case First => AheadAgrees(current, rxRto + (if cfg.nodelay == 0 then rxRto / 8 else 0));
    case Timeout => AheadAgrees(current, Backoff(cfg, rxRto, g.rto));
    case Fast => AheadAgrees(current, g.rto);
  }

  lemma ProbeClocks(p: Probe, rmtWnd: u32, current: int)
    requires rmtWnd == 0 && p.wait != 0 ==> Near(current, p.ts)
    ensures ProbeTimer(Exact, ClockProbe(p), rmtWnd, Wrap32(current)) == ClockProbe(ProbeTimer(Ideal, p, rmtWnd, current))
  {
    AheadAgrees(current, PROBE_INIT);
    if rmtWnd == 0 && p.wait != 0 {
      SinceAgrees(current, p.ts);
      var w := if p.wait < PROBE_INIT then PROBE_INIT else p.wait;
      AheadAgrees(current, Min(Wrap32(w + w / 2), PROBE_LIMIT));
    }
  }

  lemma {:induction false} AdmitClocks(s: Sender, window: nat, current: int, rto: u32)
    ensures Admit(Exact, ClockSnd(s), window, Wrap32(current), rto) == ClockSnd(Admit(Ideal, s, window, current, rto))
    decreases |s.queue|
  {
    if s.nxt < s.una + window && s.queue != [] {
      var g := SndSeg(s.nxt, s.queue[0], current, rto, 0, 0);
      assert ClockSegs(s.buf + [g]) == ClockSegs(s.buf) + [ClockSeg(g)];
      AdmitClocks(s.(queue := s.queue[1..], nxt := s.nxt + 1, buf := s.buf + [g]), window, current, rto);
    }
  }

  lemma {:induction false} AdmitTimely(s: Sender, window: nat, current: int, rto: u32)
    requires TimelySegs(current, s.buf)
    ensures TimelySegs(current, Admit(Ideal, s, window, current, rto).buf)
    decreases |s.queue|
  {
    if s.nxt < s.una + window && s.queue != [] {
      var g := SndSeg(s.nxt, s.queue[0], current, rto, 0, 0);
      AdmitTimely(s.(queue := s.queue[1..], nxt := s.nxt + 1, buf := s.buf + [g]), window, current, rto);
    }
  }

  lemma ClockWiresAppend(a: seq<Wire>, b: seq<Wire>)
    ensures ClockWires(a + b) == ClockWires(a) + ClockWires(b)
  {
  }

  lemma {:induction false} PushWiresClock(p: Pcb, buf: seq<SndSeg>)
    requires TimelySegs(p.clock.current, buf)
    ensures PushWires(Exact, ClockPcb(p), ClockSegs(buf)) == ClockWires(PushWires(Ideal, p, buf))
  {
    hide Judge, Near, PushWire;
    if buf != [] {
      var n := |buf| - 1;
      TimelyFront(p.clock.current, buf);
      PushWiresClock(p, buf[..n]);
      JudgeClocks(p.cfg, p.clock.current, buf[n]);
      assert ClockSegs(buf[..n]) == ClockSegs(buf)[..n];
      PushWireClocks(p, buf[n]);
      ClockWiresAppend(PushWires(Ideal, p, buf[..n]), [PushWire(p, buf[n])]);
    }
  }

  lemma TimelyFront(current: int, buf: seq<SndSeg>)
    requires buf != [] && TimelySegs(current, buf)
    ensures TimelySegs(current, buf[..|buf| - 1])
    ensures buf[|buf| - 1].xmit > 0 ==> Near(current, buf[|buf| - 1].resendts)
  {
    assert buf[|buf| - 1] in buf;
  }

  lemma PushWireClocks(p: Pcb, g: SndSeg)
    ensures [PushWire(ClockPcb(p), ClockSeg(g))] == ClockWires([PushWire(p, g)])
  {
  }

  lemma ControlsClock(p: Pcb, probe: Probe)
    ensures AckWires(ClockPcb(p)) == ClockWires(AckWires(p))
    ensures ProbeWires(ClockPcb(p), ClockProbe(probe)) == ClockWires(ProbeWires(p, probe))
  {
    assert forall cmd: byte :: ProbeWire(ClockPcb(p), cmd) == ClockWire(ProbeWire(p, cmd));
  }

  lemma FlushWiresClock(p: Pcb, snd: Sender)
    requires TimelyFlush(p) && TimelySegs(p.clock.current, snd.buf)
    ensures FlushWires(Exact, ClockPcb(p), ClockSnd(snd)) == ClockWires(FlushWires(Ideal, p, snd))
  {
    var probe := ProbeTimer(Ideal, p.probe, p.cong.rmtWnd, p.clock.current);
    ProbeClocks(p.probe, p.cong.rmtWnd, p.clock.current);
    ControlsClock(p, probe);
    PushWiresClock(p, snd.buf);
    hide AckWires, ProbeWires, PushWires, ProbeTimer, ClockWires, ClockSegs, ClockRcv, ClockProbe, TimelySegs;
    ClockWiresAppend(AckWires(p), ProbeWires(p, probe));
    ClockWiresAppend(AckWires(p) + ProbeWires(p, probe), PushWires(Ideal, p, snd.buf));
  }

  lemma VerdictsClock(cfg: Config, current: int, buf: seq<SndSeg>)
    requires TimelySegs(current, buf)
    ensures forall v :: HasVerdict(Exact, cfg, Wrap32(current), ClockSegs(buf), v) <==> HasVerdict(Ideal, cfg, current, buf, v)
    ensures LinkDies(Exact, cfg, Wrap32(current), ClockSegs(buf)) <==> LinkDies(Ideal, cfg, current, buf)
  {
    var c, now := ClockSegs(buf), Wrap32(current);
    forall i | 0 <= i < |buf|
      ensures Judge(Exact, cfg, now, c[i]) == Judge(Ideal, cfg, current, buf[i]) && c[i].xmit == buf[i].xmit
    {
      assert buf[i] in buf;
      JudgeClocks(cfg, current, buf[i]);
    }
    hide Judge, ClockSegs;
    forall v
      ensures HasVerdict(Exact, cfg, now, c, v) <==> HasVerdict(Ideal, cfg, current, buf, v)
    {
      if HasVerdict(Ideal, cfg, current, buf, v) {
        var i :| 0 <= i < |buf| && Judge(Ideal, cfg, current, buf[i]) == v;
        assert Judge(Exact, cfg, now, c[i]) == v;
      }
    }
    if LinkDies(Ideal, cfg, current, buf) {
      var i :| 0 <= i < |buf| && !Judge(Ideal, cfg, current, buf[i]).Keep? && Wrap32(buf[i].xmit + 1) >= cfg.deadLink;
      assert !Judge(Exact, cfg, now, c[i]).Keep? && Wrap32(c[i].xmit + 1) >= cfg.deadLink;
    }
  }

  lemma TouchAllClocks(cfg: Config, current: int, rxRto: u32, buf: seq<SndSeg>)
    requires TimelySegs(current, buf)
    ensures TouchAll(Exact, cfg, Wrap32(current), rxRto, ClockSegs(buf)) == ClockSegs(TouchAll(Ideal, cfg, current, rxRto, buf))
  {
    forall i | 0 <= i < |buf|
      ensures Touch(Exact, cfg, Wrap32(current), rxRto, ClockSeg(buf[i])) == ClockSeg(Touch(Ideal, cfg, current, rxRto, buf[i]))
    {
      assert buf[i] in buf;
      TouchClocks(cfg, current, rxRto, buf[i]);
    }
    hide Touch;
  }

  lemma FlushStateClocks(p: Pcb, snd: Sender)
    requires TimelyFlush(p) && TimelySegs(p.clock.current, snd.buf)
    ensures FlushState(Exact, ClockPcb(p), ClockSnd(snd)) == ClockPcb(FlushState(Ideal, p, snd))
  {
    VerdictsClock(p.cfg, p.clock.current, snd.buf);
    TouchAllClocks(p.cfg, p.clock.current, p.rtt.rto, snd.buf);
    ProbeClocks(p.probe, p.cong.rmtWnd, p.clock.current);
    assert ClockAcks([]) == [];
    hide HasVerdict, LinkDies, TouchAll, ProbeTimer, ClockSegs, ClockAcks, TimelySegs, AfterFlush;
  }

  lemma FlushClocks(p: Pcb)
    requires TimelyFlush(p)
    ensures var f := Flush(Ideal, p);
            Flush(Exact, ClockPcb(p)) == Flushed(ClockPcb(f.s), ClockWires(f.wires))
  {
    if p.cfg.copy.Extended? && !p.clock.updated {
      assert ClockWires([]) == [];
    } else {
      AdmitClocks(p.snd, SendWindow(p), p.clock.current, p.rtt.rto);
      AdmitTimely(p.snd, SendWindow(p), p.clock.current, p.rtt.rto);
      var snd := Admitted(Ideal, p);
      FlushWiresClock(p, snd);
      FlushStateClocks(p, snd);
      hide FlushWires, FlushState, Admit, ClockSnd, ClockWires, TimelyFlush, TimelySegs;
    }
  }

  /** ikcp_update compares near times. */
  ghost predicate TimelyUpdate(p: Pcb, now: int) {
    TimelyClock(p.clock, now) && (FlushDue(Ideal, p, now) ==> TimelyFlush(Ticked(Ideal, p, now)))
  }

  lemma UpdateClocks(p: Pcb, now: int)
    requires p.cfg.interval <= 5000 && TimelyUpdate(p, now)
    ensures var f := Update(Ideal, p, now);
            Update(Exact, ClockPcb(p), now) == Flushed(ClockPcb(f.s), ClockWires(f.wires))
  {
    TickClocks(p.clock, p.cfg.interval, now);
    assert Ticked(Exact, ClockPcb(p), now) == ClockPcb(Ticked(Ideal, p, now));
    assert FlushDue(Exact, ClockPcb(p), now) == FlushDue(Ideal, p, now);
    hide Tick, Ticked, FlushDue, Flush, ClockPcb;
    if FlushDue(Ideal, p, now) {
      FlushClocks(Ticked(Ideal, p, now));
    } else {
      assert ClockWires([]) == [];
    }
  }

  // ----------------------------------------------------------------- ikcp_check

  /** Nearer than 2^31, either way. */
  predicate Close(a: int, b: int) {
    -0x8000_0000 < a - b < 0x8000_0000
  }

  lemma {:induction false} NextResendClocks(buf: seq<SndSeg>, now: int, least: int)
    requires forall g :: g in buf ==> Close(g.resendts, now)
    ensures NextResend(Exact, ClockSegs(buf), Wrap32(now), least) == NextResend(Ideal, buf, now, least)
    decreases |buf|
  {
    if buf != [] {
      SinceAgrees(buf[0].resendts, now);
      assert ClockSegs(buf)[1..] == ClockSegs(buf[1..]);
      NextResendClocks(buf[1..], now, Min(buf[0].resendts - now, least));
    }
  }

  /** ikcp_check names the same time, modulo 2^32. */
  lemma CheckClocks(c: Clock, interval: nat, buf: seq<SndSeg>, now: int)
    requires Close(now, c.tsFlush) && forall g :: g in buf ==> Close(g.resendts, now)
    ensures Check(Exact, ClockTimes(c), interval, ClockSegs(buf), Wrap32(now)) == Wrap32(Check(Ideal, c, interval, buf, now))
  {
    SinceAgrees(now, c.tsFlush);
    SinceAgrees(c.tsFlush, now);
    NextResendClocks(buf, now, 0x7fff_ffff);
    var packet := NextResend(Ideal, buf, now, 0x7fff_ffff);
    AheadAgrees(now, Min(Min(packet, c.tsFlush - now), interval));
  }

  // ------------------------------------------------------------------- one input

  lemma {:induction false} ParseUnaClocks(buf: seq<SndSeg>, una: int)
    ensures ParseUna(Exact, ClockSegs(buf), una) == ClockSegs(ParseUna(Ideal, buf, una))
  {
    if buf != [] && una > buf[0].sn {
      assert ClockSegs(buf)[1..] == ClockSegs(buf[1..]);
      ParseUnaClocks(buf[1..], una);
    }
  }

  lemma ClockSegsCons(g: SndSeg, buf: seq<SndSeg>)
    ensures ClockSegs([g] + buf) == [ClockSeg(g)] + ClockSegs(buf)
  {
  }

  lemma {:induction false} RemoveAckedClocks(buf: seq<SndSeg>, sn: int)
    ensures RemoveAcked(Exact, ClockSegs(buf), sn) == ClockSegs(RemoveAcked(Ideal, buf, sn))
  {
    if buf != [] {
      assert ClockSegs(buf)[1..] == ClockSegs(buf[1..]);
      if sn > buf[0].sn {
        RemoveAckedClocks(buf[1..], sn);
        ClockSegsCons(buf[0], RemoveAcked(Ideal, buf[1..], sn));
      }
    }
  }

  lemma {:induction false} CountSkippedClocks(buf: seq<SndSeg>, sn: int)
    ensures CountSkipped(Exact, ClockSegs(buf), sn) == ClockSegs(CountSkipped(Ideal, buf, sn))
  {
    if buf != [] && sn >= buf[0].sn {
      assert ClockSegs(buf)[1..] == ClockSegs(buf[1..]);
      CountSkippedClocks(buf[1..], sn);
      ClockSegsCons(buf[0], CountSkipped(Ideal, buf[1..], sn));
      ClockSegsCons(buf[0].(fastack := Wrap32(buf[0].fastack + 1)), CountSkipped(Ideal, buf[1..], sn));
    }
  }

  lemma InputSndClocks(s: Sender, w: Wire)
    ensures InputSnd(Exact, ClockSnd(s), ClockWire(w)) == ClockSnd(InputSnd(Ideal, s, w))
  {
    ParseUnaClocks(s.buf, w.una);
    RemoveAckedClocks(ParseUna(Ideal, s.buf, w.una), w.sn);
  }

  lemma {:induction false} InsertClocks(buf: seq<RcvSeg>, seg: RcvSeg)
    ensures Insert(Exact, buf, seg) == Insert(Ideal, buf, seg)
  {
    if buf != [] {
      InsertClocks(buf[..|buf| - 1], seg);
    }
  }

  lemma {:induction false} MoveReadyClocks(r: Receiver, wnd: nat)
    ensures MoveReady(Exact, ClockRcv(r), wnd) == ClockRcv(MoveReady(Ideal, r, wnd))
    decreases |r.buf|
  {
    if r.buf != [] && r.buf[0].sn == r.nxt && |r.queue| < wnd {
      MoveReadyClocks(r.(buf := r.buf[1..], queue := r.queue + [r.buf[0].frag], nxt := r.nxt + 1), wnd);
    }
  }

  lemma InputRcvClocks(r: Receiver, wnd: nat, w: Wire)
    ensures InputRcv(Exact, ClockRcv(r), wnd, ClockWire(w)) == ClockRcv(InputRcv(Ideal, r, wnd, w))
  {
    var a, seg := Ack(w.sn, w.ts), RcvSeg(w.sn, Frag(w.frg, w.data));
    assert ClockAcks(r.acks + [a]) == ClockAcks(r.acks) + [ClockAck(a)];
    InsertClocks(r.buf, seg);
    MoveReadyClocks(r.(acks := r.acks + [a], buf := Insert(Ideal, r.buf, seg)), wnd);
  }

  /** The time an ack echoes is near now. */
  predicate TimelyWire(current: int, w: Wire) {
    w.cmd == CMD_ACK ==> Near(current, w.ts)
  }

  lemma WireClocks(c: InCtx, w: Wire)
    requires TimelyWire(c.s.clock.current, w)
    ensures InputWire(Exact, c.(s := ClockPcb(c.s)), ClockWire(w)) == InputWire(Ideal, c, w).(s := ClockPcb(InputWire(Ideal, c, w).s))
    ensures InputWire(Ideal, c, w).s.clock == c.s.clock
  {
    InputSndClocks(c.s.snd, w);
    InputRcvClocks(c.s.rcv, c.s.cfg.rcvWnd, w);
    if w.cmd == CMD_ACK {
      SinceAgrees(c.s.clock.current, w.ts);
    }
    hide InputSnd, InputRcv, ClockSnd, ClockRcv;
  }

  lemma {:induction false} WiresClock(c: InCtx, ws: seq<Wire>)
    requires forall w :: w in ws ==> TimelyWire(c.s.clock.current, w)
    ensures var d := InputWires(Ideal, c, ws);
            InputWires(Exact, c.(s := ClockPcb(c.s)), ClockWires(ws)) == d.(s := ClockPcb(d.s))
    decreases |ws|
  {
    if ws != [] {
      WireClocks(c, ws[0]);
      assert ClockWires(ws)[1..] == ClockWires(ws[1..]);
      WiresClock(InputWire(Ideal, c, ws[0]), ws[1..]);
    }
  }

  lemma InputClocks(p: Pcb, ws: seq<Wire>)
    requires forall w :: w in ws ==> TimelyWire(p.clock.current, w)
    ensures Input(Exact, ClockPcb(p), ClockWires(ws), true) == ClockPcb(Input(Ideal, p, ws, true))
  {
    var c0 := InCtx(p, false, 0);
    WiresClock(c0, ws);
    var c := InputWires(Ideal, c0, ws);
    CountSkippedClocks(c.s.snd.buf, c.maxack);
  }

  lemma RecvClocks(r: Receiver, wnd: nat, len: int)
    ensures var v := Recv(Ideal, r, wnd, len);
            Recv(Exact, ClockRcv(r), wnd, len) == v.(rcv := ClockRcv(v.rcv))
  {
    MoveReadyClocks(r, wnd);
    MoveReadyClocks(r.(queue := r.queue[HeadCount(r.queue)..]), wnd);
  }

  // ------------------------------------------------------------------- whole runs

  function ClockNet(net: seq<Datagram>): (r: seq<Datagram>)
    ensures |r| == |net|
  {
    seq(|net|, i requires 0 <= i < |net| => ClockWires(net[i]))
  }

  function ClockHalf(h: Half): Half {
    h.(p := ClockPcb(h.p), net := ClockNet(h.net))
  }

  function ClockSys(s: Sys): Sys {
    Sys(ClockHalf(s.a), ClockHalf(s.b))
  }

  /** The times a step compares are less than 2^31 apart. */
  ghost predicate TimelyStep(self: Half, peer: Half, act: Action) {
    match act
    case DoUpdate(now) => TimelyUpdate(self.p, now)
    case DoFlush => TimelyFlush(self.p)
    case Deliver(k) => k < |peer.net| ==> forall w :: w in peer.net[k] ==> TimelyWire(self.p.clock.current, w)
    case _ => true
  }

  ghost predicate TimelyRun(cfgA: Config, cfgB: Config, events: seq<Event>)
    requires ValidConfig(cfgA) && ValidConfig(cfgB)
  {
    events == [] ||
    var n := |events| - 1;
    var s := Run(Ideal, cfgA, cfgB, events[..n]);
    && TimelyRun(cfgA, cfgB, events[..n])
    && (if events[n].atA then TimelyStep(s.a, s.b, events[n].act) else TimelyStep(s.b, s.a, events[n].act))
  }

  lemma {:induction false} PutAllClocks(mtu: nat, ws: seq<Wire>)
    ensures var p := PutAll(mtu, ws);
            PutAll(mtu, ClockWires(ws)) == Packer(ClockNet(p.out), ClockWires(p.cur))
  {
    if ws != [] {
      var n := |ws| - 1;
      PutAllClocks(mtu, ws[..n]);
      assert ClockWires(ws)[..n] == ClockWires(ws[..n]);
      PutClocks(mtu, PutAll(mtu, ws[..n]), ws[n]);
    }
  }

  lemma PutClocks(mtu: nat, p: Packer, w: Wire)
    ensures var q := Put(mtu, p, w);
            Put(mtu, Packer(ClockNet(p.out), ClockWires(p.cur)), ClockWire(w)) == Packer(ClockNet(q.out), ClockWires(q.cur))
  {
    SizeClocks(p.cur);
    assert ClockNet(p.out + [p.cur]) == ClockNet(p.out) + [ClockWires(p.cur)];
    assert ClockWires([w]) == [ClockWire(w)];
    assert ClockWires(p.cur + [w]) == ClockWires(p.cur) + [ClockWire(w)];
  }

  lemma {:induction false} SizeClocks(d: Datagram)
    ensures Size(ClockWires(d)) == Size(d)
  {
    if d != [] {
      SizeClocks(d[..|d| - 1]);
      assert ClockWires(d)[..|d| - 1] == ClockWires(d[..|d| - 1]);
    }
  }

  lemma EmitClocks(h: Half, f: Flushed)
    ensures EmitStep(ClockHalf(h), Flushed(ClockPcb(f.s), ClockWires(f.wires))) == ClockHalf(EmitStep(h, f))
  {
    var mtu := h.p.cfg.mtu;
    PutAllClocks(mtu, f.wires);
    var p := PutAll(mtu, f.wires);
    assert ClockNet(p.out + [p.cur]) == ClockNet(p.out) + [ClockWires(p.cur)];
    assert Pack(mtu, ClockWires(f.wires)) == ClockNet(Pack(mtu, f.wires));
    assert ClockNet(h.net + Pack(mtu, f.wires)) == ClockNet(h.net) + ClockNet(Pack(mtu, f.wires));
  }

  lemma StepClocks(self: Half, peer: Half, act: Action)
    requires self.p.cfg.mss > 0 && self.p.cfg.interval <= 5000 && TimelyStep(self, peer, act)
    ensures HalfStep(Exact, ClockHalf(self), ClockNet(peer.net), act) == ClockHalf(HalfStep(Ideal, self, peer.net, act))
  {
    match act
    case DoSend(msg) =>
    case DoRecv(len) => RecvClocks(self.p.rcv, self.p.cfg.rcvWnd, len);
    case DoUpdate(now) =>
      UpdateClocks(self.p, now);
      EmitClocks(self, Update(Ideal, self.p, now));
    case DoFlush =>
      FlushClocks(self.p);
      EmitClocks(self, Flush(Ideal, self.p));
    case Deliver(k) =>
      if k < |peer.net| {
        InputClocks(self.p, peer.net[k]);
      }
  }

  /** The machine on 32-bit times runs in step with the machine on unbounded times,
      however long the run, as long as the times it compares are less than 2^31 apart. */
  lemma {:induction false} RunClocks(cfgA: Config, cfgB: Config, events: seq<Event>)
    requires ValidConfig(cfgA) && ValidConfig(cfgB) && TimelyRun(cfgA, cfgB, events)
    ensures Run(Exact, cfgA, cfgB, events) == ClockSys(Run(Ideal, cfgA, cfgB, events))
  {
    if events == [] {
      StartClocks(cfgA);
      StartClocks(cfgB);
    } else {
      var n := |events| - 1;
      RunClocks(cfgA, cfgB, events[..n]);
      var s := Run(Ideal, cfgA, cfgB, events[..n]);
      if events[n].atA {
        StepClocks(s.a, s.b, events[n].act);
      } else {
        StepClocks(s.b, s.a, events[n].act);
      }
    }
  }

  lemma StartClocks(cfg: Config)
    ensures ClockHalf(Start(cfg)) == Start(cfg)
  {
    assert ClockSegs([]) == [] && ClockAcks([]) == [] && ClockNet([]) == [];
  }

  /** Sequence numbers and times together: the C code runs in step with the machine on
      which neither wraps. */
  lemma RunRefines(cfgA: Config, cfgB: Config, events: seq<Event>)
    requires ValidConfig(cfgA) && ValidConfig(cfgB)
    requires TimelyRun(cfgA, cfgB, events) && RecentRun(cfgA, cfgB, events)
    ensures Run(Wrapping, cfgA, cfgB, events) == WrapSys(ClockSys(Run(Ideal, cfgA, cfgB, events)))
  {
    RunClocks(cfgA, cfgB, events);
    RunWraps(cfgA, cfgB, events);
  }

  // -------------------------------------------------- runs that are short in time

  /** A retransmission time that is set lies in [0, last]. */
  ghost predicate SegsEarly(last: int, buf: seq<SndSeg>) {
    forall g :: g in buf && g.xmit > 0 ==> 0 <= g.resendts <= last
  }

  ghost predicate StampsEarly(end: int, ws: seq<Wire>) {
    forall w :: w in ws ==> 0 <= w.ts <= end
  }

  /** The clock of p has not passed end, and nothing is scheduled after last. */
  ghost predicate PcbEarly(end: int, last: int, p: Pcb) {
    && 0 <= p.clock.current <= end && 0 <= p.clock.tsFlush <= last && 0 <= p.probe.ts <= last
    && (forall a :: a in p.rcv.acks ==> 0 <= a.ts <= end)
    && SegsEarly(last, p.snd.buf)
  }

  ghost predicate HalfEarly(end: int, last: int, h: Half) {
    PcbEarly(end, last, h.p) && forall d :: d in h.net ==> StampsEarly(end, d)
  }

  /** No retransmission timeout of p is longer than longest. */
  ghost predicate TimeoutsWithin(longest: int, p: Pcb) {
    p.rtt.rto <= longest && forall g :: g in p.snd.buf ==> g.rto <= longest
  }

  predicate Reaches(end: int, last: int, longest: int) {
    0 <= end && 0 <= longest && end + 120000 <= last && end + longest + longest / 8 <= last < 0x8000_0000
  }

  lemma {:induction false} UnaEarly(buf: seq<SndSeg>, una: int, last: int)
    requires SegsEarly(last, buf)
    ensures SegsEarly(last, ParseUna(Ideal, buf, una))
  {
    if buf != [] && una > buf[0].sn {
      UnaEarly(buf[1..], una, last);
    }
  }

  lemma {:induction false} RemoveEarly(buf: seq<SndSeg>, sn: int, last: int)
    requires SegsEarly(last, buf)
    ensures SegsEarly(last, RemoveAcked(Ideal, buf, sn))
  {
    if buf != [] && sn > buf[0].sn {
      RemoveEarly(buf[1..], sn, last);
    }
  }

  lemma {:induction false} SkipEarly(buf: seq<SndSeg>, sn: int, last: int)
    requires SegsEarly(last, buf)
    ensures SegsEarly(last, CountSkipped(Ideal, buf, sn))
  {
    if buf != [] && sn >= buf[0].sn {
      assert buf[0] in buf;
      SkipEarly(buf[1..], sn, last);
    }
  }

  lemma PushAcks(r: Receiver, wnd: nat, w: Wire)
    ensures var t := ReceivePush(Ideal, r, wnd, w);
            t.acks == r.acks || t.acks == r.acks + [Ack(w.sn, w.ts)]
  {
    var r1 := r.(acks := r.acks + [Ack(w.sn, w.ts)]);
    MoveReadyAcks(Ideal, r1.(buf := Insert(Ideal, r1.buf, RcvSeg(w.sn, Frag(w.frg, w.data)))), wnd);
  }

  lemma WireEarly(c: InCtx, w: Wire, end: int, last: int)
    requires PcbEarly(end, last, c.s) && 0 <= w.ts <= end
    ensures PcbEarly(end, last, InputWire(Ideal, c, w).s)
  {
    UnaEarly(c.s.snd.buf, w.una, last);
    RemoveEarly(ParseUna(Ideal, c.s.snd.buf, w.una), w.sn, last);
    PushAcks(c.s.rcv, c.s.cfg.rcvWnd, w);
    hide ParseUna, RemoveAcked, ReceivePush, UpdateAck;
  }

  lemma {:induction false} WiresEarly(c: InCtx, ws: seq<Wire>, end: int, last: int)
    requires PcbEarly(end, last, c.s) && StampsEarly(end, ws)
    ensures PcbEarly(end, last, InputWires(Ideal, c, ws).s)
    decreases |ws|
  {
    hide PcbEarly;
    if ws != [] {
      WireEarly(c, ws[0], end, last);
      WiresEarly(InputWire(Ideal, c, ws[0]), ws[1..], end, last);
    }
  }

  lemma InputEarly(p: Pcb, ws: seq<Wire>, end: int, last: int)
    requires PcbEarly(end, last, p) && StampsEarly(end, ws)
    ensures PcbEarly(end, last, Input(Ideal, p, ws, true))
  {
    var c0 := InCtx(p, false, 0);
    WiresEarly(c0, ws, end, last);
    var c := InputWires(Ideal, c0, ws);
    SkipEarly(c.s.snd.buf, c.maxack, last);
  }

  lemma RecvEarly(r: Receiver, wnd: nat, len: int)
    ensures Recv(Ideal, r, wnd, len).rcv.acks == r.acks
  {
    MoveReadyAcks(Ideal, r, wnd);
    MoveReadyAcks(Ideal, r.(queue := r.queue[HeadCount(r.queue)..]), wnd);
  }

  lemma TouchEarly(cfg: Config, current: int, rxRto: u32, g: SndSeg, end: int, last: int, longest: int)
    requires Reaches(end, last, longest) && 0 <= current <= end && rxRto <= longest
    requires g.xmit > 0 ==> 0 <= g.resendts <= last
    requires Touch(Ideal, cfg, current, rxRto, g).rto <= longest
    ensures var h := Touch(Ideal, cfg, current, rxRto, g); h.xmit > 0 ==> 0 <= h.resendts <= last
  {
  }

  lemma {:induction false} AdmitEarly(s: Sender, window: nat, current: int, rto: u32, last: int)
    requires SegsEarly(last, s.buf)
    ensures SegsEarly(last, Admit(Ideal, s, window, current, rto).buf)
    decreases |s.queue|
  {
    if s.nxt < s.una + window && s.queue != [] {
      var g := SndSeg(s.nxt, s.queue[0], current, rto, 0, 0);
      AdmitEarly(s.(queue := s.queue[1..], nxt := s.nxt + 1, buf := s.buf + [g]), window, current, rto, last);
    }
  }

  lemma TouchAllEarly(cfg: Config, current: int, rxRto: u32, buf: seq<SndSeg>, end: int, last: int, longest: int)
    requires Reaches(end, last, longest) && 0 <= current <= end && rxRto <= longest && SegsEarly(last, buf)
    requires forall g :: g in TouchAll(Ideal, cfg, current, rxRto, buf) ==> g.rto <= longest
    ensures SegsEarly(last, TouchAll(Ideal, cfg, current, rxRto, buf))
  {
    var b := TouchAll(Ideal, cfg, current, rxRto, buf);
    forall i | 0 <= i < |b|
      ensures b[i].xmit > 0 ==> 0 <= b[i].resendts <= last
    {
      assert b[i] in b && buf[i] in buf;
      TouchEarly(cfg, current, rxRto, buf[i], end, last, longest);
    }
  }

  lemma ProbeEarly(p: Probe, rmtWnd: u32, current: int, end: int, last: int)
    requires 0 <= p.ts <= last && 0 <= current <= end && end + 120000 <= last
    ensures 0 <= ProbeTimer(Ideal, p, rmtWnd, current).ts <= last
  {
  }

  lemma FlushEarly(p: Pcb, end: int, last: int, longest: int)
    requires Reaches(end, last, longest) && PcbEarly(end, last, p)
    requires p.rtt.rto <= longest && TimeoutsWithin(longest, Flush(Ideal, p).s)
    ensures PcbEarly(end, last, Flush(Ideal, p).s)
  {
    if p.cfg.copy.Basic? || p.clock.updated {
      AdmitEarly(p.snd, SendWindow(p), p.clock.current, p.rtt.rto, last);
      TouchAllEarly(p.cfg, p.clock.current, p.rtt.rto, Admitted(Ideal, p).buf, end, last, longest);
      ProbeEarly(p.probe, p.cong.rmtWnd, p.clock.current, end, last);
    }
  }

  lemma {:induction false} PushesStamped(p: Pcb, buf: seq<SndSeg>)
    ensures forall w :: w in PushWires(Ideal, p, buf) ==> w.ts == p.clock.current
  {
    if buf != [] {
      PushesStamped(p, buf[..|buf| - 1]);
    }
  }

  lemma FlushStamps(p: Pcb, end: int, last: int)
    requires PcbEarly(end, last, p)
    ensures StampsEarly(end, Flush(Ideal, p).wires)
  {
    if p.cfg.copy.Basic? || p.clock.updated {
      PushesStamped(p, Admitted(Ideal, p).buf);
      assert forall i :: 0 <= i < |p.rcv.acks| ==> p.rcv.acks[i] in p.rcv.acks;
      assert StampsEarly(end, AckWires(p));
      assert StampsEarly(end, ProbeWires(p, ProbeTimer(Ideal, p.probe, p.cong.rmtWnd, p.clock.current)));
    }
  }

  lemma EmitEarly(h: Half, f: Flushed, end: int, last: int)
    requires HalfEarly(end, last, h) && PcbEarly(end, last, f.s) && StampsEarly(end, f.wires)
    ensures HalfEarly(end, last, EmitStep(h, f))
  {
    PackMembers(h.p.cfg.mtu, f.wires);
  }

  lemma TickedEarly(p: Pcb, now: int, end: int, last: int)
    requires PcbEarly(end, last, p) && 0 <= now <= end && p.cfg.interval <= 5000 && end + 120000 <= last
    ensures PcbEarly(end, last, Ticked(Ideal, p, now))
  {
  }

  /** Every ikcp_update is made at a time in [0, end]. */
  predicate CalledBy(end: int, act: Action) {
    act.DoUpdate? ==> 0 <= act.now <= end
  }

  lemma StepEarly(self: Half, peer: Half, act: Action, end: int, last: int, longest: int)
    requires Reaches(end, last, longest) && HalfEarly(end, last, self) && HalfEarly(end, last, peer)
    requires self.p.cfg.mss > 0 && self.p.cfg.interval <= 5000 && CalledBy(end, act)
    requires TimeoutsWithin(longest, self.p) && TimeoutsWithin(longest, HalfStep(Ideal, self, peer.net, act).p)
    ensures HalfEarly(end, last, HalfStep(Ideal, self, peer.net, act))
  {
    match act
    case DoSend(msg) =>
    case DoRecv(len) => RecvEarly(self.p.rcv, self.p.cfg.rcvWnd, len);
    case DoUpdate(now) =>
      TickedEarly(self.p, now, end, last);
      if FlushDue(Ideal, self.p, now) {
        FlushEarly(Ticked(Ideal, self.p, now), end, last, longest);
        FlushStamps(Ticked(Ideal, self.p, now), end, last);
      }
      EmitEarly(self, Update(Ideal, self.p, now), end, last);
    case DoFlush =>
      FlushEarly(self.p, end, last, longest);
      FlushStamps(self.p, end, last);
      EmitEarly(self, Flush(Ideal, self.p), end, last);
    case Deliver(k) =>
      if k < |peer.net| {
        InputEarly(self.p, peer.net[k], end, last);
      }
  }

  lemma EarlyIsTimely(self: Half, peer: Half, act: Action, end: int, last: int)
    requires HalfEarly(end, last, self) && HalfEarly(end, last, peer)
    requires 0 <= end && end + 120000 <= last < 0x8000_0000 && self.p.cfg.interval <= 5000 && CalledBy(end, act)
    ensures TimelyStep(self, peer, act)
  {
    match act
    case DoUpdate(now) => TickedEarly(self.p, now, end, last);
    case Deliver(k) =>
      if k < |peer.net| {
        assert StampsEarly(end, peer.net[k]);
      }
    case _ =>
  }

  /** In every state of the run no timeout is longer than longest. */
  ghost predicate CalmRun(longest: int, cfgA: Config, cfgB: Config, events: seq<Event>)
    requires ValidConfig(cfgA) && ValidConfig(cfgB)
  {
    var s := Run(Ideal, cfgA, cfgB, events);
    && TimeoutsWithin(longest, s.a.p) && TimeoutsWithin(longest, s.b.p)
    && (events == [] || CalmRun(longest, cfgA, cfgB, events[..|events| - 1]))
  }

  /** Until the clocks come within two minutes, or within the longest timeout and an
      eighth of it, of 2^31, every comparison of times is right. */
  lemma ShortRunsAreTimely(cfgA: Config, cfgB: Config, events: seq<Event>, end: int, longest: int)
    requires ValidConfig(cfgA) && ValidConfig(cfgB) && CalmRun(longest, cfgA, cfgB, events)
    requires 0 <= end && 0 <= longest && end + 120000 < 0x8000_0000 && end + longest + longest / 8 < 0x8000_0000
    requires forall e :: e in events ==> CalledBy(end, e.act)
    ensures TimelyRun(cfgA, cfgB, events)
  {
    RunEarly(cfgA, cfgB, events, end, 0x7fff_ffff, longest);
  }

  lemma {:induction false} RunEarly(cfgA: Config, cfgB: Config, events: seq<Event>, end: int, last: int, longest: int)
    requires ValidConfig(cfgA) && ValidConfig(cfgB) && CalmRun(longest, cfgA, cfgB, events)
    requires Reaches(end, last, longest) && forall e :: e in events ==> CalledBy(end, e.act)
    ensures TimelyRun(cfgA, cfgB, events)
    ensures var s := Run(Ideal, cfgA, cfgB, events); HalfEarly(end, last, s.a) && HalfEarly(end, last, s.b)
  {
    if events != [] {
      var n := |events| - 1;
      assert forall e :: e in events[..n] ==> e in events;
      RunEarly(cfgA, cfgB, events[..n], end, last, longest);
      var s := Run(Ideal, cfgA, cfgB, events[..n]);
      assert events[n] in events;
      hide HalfEarly, TimelyStep, TimeoutsWithin, Reaches;
      if events[n].atA {
        StepEarly(s.a, s.b, events[n].act, end, last, longest);
        EarlyIsTimely(s.a, s.b, events[n].act, end, last);
      } else {
        StepEarly(s.b, s.a, events[n].act, end, last, longest);
        EarlyIsTimely(s.b, s.a, events[n].act, end, last);
      }
    }
  }
}
