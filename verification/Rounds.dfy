/** Exchange after exchange everything gets through: as long as each one transmits the
    oldest segment and reaches the peer, every byte that was queued arrives. */
module Rounds {
  import opened Basics
  import opened Serial
  import opened KcpTypes
  import opened KcpSpec
  import opened Endpoint
  import opened System
  import opened Delivery
  import opened Messages
  import opened Streams
  import opened Datagrams
  import opened Progress

  // ------------------------------------------------------- what has been queued

  /** Everything ikcp_send has queued so far, numbered or not. */
  function Queued(h: Half): seq<Frag> {
    h.numbered + h.p.snd.queue
  }

  /** b continues a: only its last fragment may have been filled up, and more follow. */
  ghost predicate Grown(a: seq<Frag>, b: seq<Frag>) {
    && |a| <= |b| && (forall i :: 0 <= i < |a| - 1 ==> b[i] == a[i])
    && (a != [] ==> a[|a| - 1].data <= b[|a| - 1].data)
  }

  lemma GrownTwice(a: seq<Frag>, b: seq<Frag>, c: seq<Frag>)
    requires Grown(a, b) && Grown(b, c)
    ensures Grown(a, c)
  {
  }

  lemma GrownBytes(a: seq<Frag>, b: seq<Frag>, k: nat)
    requires Grown(a, b) && |a| <= k <= |b|
    ensures Bytes(a) <= Bytes(b[..k])
  {
    if a != [] {
      hide Bytes;
      var n := |a| - 1;
      GrownSplits(a, b, k);
      BytesSnoc(a[..n], a[n]);
      BytesSnoc(b[..n], b[n]);
      BytesAppend(b[..n] + [b[n]], b[n + 1..k]);
      PrefixGlue(Bytes(a[..n]), a[n].data, b[n].data, Bytes(b[n + 1..k]));
    }
  }

  lemma GrownSplits(a: seq<Frag>, b: seq<Frag>, k: nat)
    requires Grown(a, b) && a != [] && |a| <= k <= |b|
    ensures var n := |a| - 1;
            && a == a[..n] + [a[n]] && b[..k] == (b[..n] + [b[n]]) + b[n + 1..k]
            && a[..n] == b[..n] && a[n].data <= b[n].data
  {
  }

  lemma PrefixGlue(x: seq<byte>, y: seq<byte>, z: seq<byte>, more: seq<byte>)
    requires y <= z
    ensures x + y <= (x + z) + more
  {
  }

  lemma SendGrows(cfg: Config, before: seq<Frag>, queue: seq<Frag>, msg: seq<byte>)
    requires cfg.mss > 0
    ensures Grown(before + queue, before + Send(cfg, queue, msg).queue)
  {
    var q := StreamAppend(cfg, queue, msg);
    assert forall i :: 0 <= i < |queue| - 1 ==> q[i] == queue[i];
    assert queue != [] ==> queue[|queue| - 1].data <= q[|queue| - 1].data;
    assert q <= Send(cfg, queue, msg).queue;
  }

  // ------------------------------------------------------------ one call at a time

  /** A segment that comes next does not wait in rcv_buf while rcv_queue has room. */
  ghost predicate Drained(p: Pcb) {
    |p.rcv.queue| < p.cfg.rcvWnd ==> !InRcvBuf(p.rcv.buf, p.rcv.nxt)
  }

  lemma MoveReadyDrains(r: Receiver, wnd: nat)
    requires RcvOk(r, wnd)
    ensures var t := MoveReady(Exact, r, wnd);
            |t.queue| < wnd ==> !InRcvBuf(t.buf, t.nxt)
  {
    var k := MoveReadyMoves(r, wnd);
    MoveReadyOk(r, wnd);
    hide MoveReady;
    var t := MoveReady(Exact, r, wnd);
    if InRcvBuf(t.buf, t.nxt) {
      var i :| 0 <= i < |t.buf| && t.buf[i].sn == t.nxt;
      assert t.buf[0] in t.buf;
      assert t.buf[0] == r.buf[k];
    }
  }

  lemma WireDrains(p: Pcb, w: Wire)
    requires EndOk(p) && Drained(p)
    ensures Drained(InputState(Exact, p, w))
  {
    if w.cmd == CMD_PUSH && p.rcv.nxt <= w.sn < p.rcv.nxt + p.cfg.rcvWnd {
      var seg := RcvSeg(w.sn, Frag(w.frg, w.data));
      InsertSorted(p.rcv.buf, seg);
      PushGrows(p.rcv, p.cfg.rcvWnd, w);
      var r := p.rcv.(acks := p.rcv.acks + [Ack(w.sn, w.ts)], buf := Insert(Exact, p.rcv.buf, seg));
      assert RcvOk(r, p.cfg.rcvWnd);
      MoveReadyDrains(r, p.cfg.rcvWnd);
    }
  }

  lemma {:induction false} WiresDrain(c: InCtx, ws: seq<Wire>)
    requires EndOk(c.s) && Drained(c.s)
    ensures Drained(InputWires(Exact, c, ws).s)
    decreases |ws|
  {
    if ws != [] {
      WireDrains(c.s, ws[0]);
      WireAcks(c, ws[0]);
      WiresDrain(InputWire(Exact, c, ws[0]), ws[1..]);
    }
  }

  lemma RecvDrains(p: Pcb, len: int)
    requires EndOk(p) && Drained(p)
    ensures var v := Recv(Exact, p.rcv, p.cfg.rcvWnd, len);
            Drained(p.(rcv := v.rcv))
  {
    var r := p.rcv;
    MoveReadyDrains(r, p.cfg.rcvWnd);
    MoveReadyDrains(r.(queue := r.queue[HeadCount(r.queue)..]), p.cfg.rcvWnd);
  }

  lemma StepDrains(self: Half, peer: Half, act: Action)
    requires Pair(self, peer) && Drained(self.p)
    ensures Drained(HalfStep(Exact, self, peer.net, act).p)
  {
    match act
    case DoSend(msg) =>
    case DoRecv(len) => RecvDrains(self.p, len);
    case DoUpdate(now) =>
    case DoFlush =>
    case Deliver(k) =>
      if k < |peer.net| {
        WiresDrain(InCtx(self.p, false, 0), peer.net[k]);
      }
  }

  lemma StepGrows(self: Half, peer: Half, act: Action)
    requires Pair(self, peer)
    ensures var h := HalfStep(Exact, self, peer.net, act);
            Grown(Queued(self), Queued(h)) && self.p.snd.una <= h.p.snd.una
  {
    if act.DoSend? {
      SendGrows(self.p.cfg, self.numbered, self.p.snd.queue, act.msg);
    } else {
      SentFrame(self, peer, act);
      UnaForward(self, peer, act);
    }
  }

  lemma UnaForward(self: Half, peer: Half, act: Action)
    requires Pair(self, peer)
    ensures self.p.snd.una <= HalfStep(Exact, self, peer.net, act).p.snd.una
  {
    match act
    case DoSend(msg) =>
    case DoRecv(len) =>
    case DoUpdate(now) => AnyBytes.ExactFlushOk(Ticked(Exact, self.p, now));
    case DoFlush => AnyBytes.ExactFlushOk(self.p);
    case Deliver(k) =>
      if k < |peer.net| {
        InputKeeps(self.p, self.numbered, peer.numbered, peer.p.rcv, peer.net[k]);
      }
  }

  // -------------------------------------------------------------- any further events

  /** What holds of the system, for the direction from side atA to the other. */
  ghost predicate Sound(s: Sys, atA: bool) {
    SysOk(s) && Drained(Side(s, !atA).p) && ReadOk(Side(s, !atA))
  }

  /** t comes after s: nothing queued is gone, and no acknowledgement is taken back. */
  ghost predicate Later(s: Sys, t: Sys, atA: bool) {
    && Grown(Queued(Side(s, atA)), Queued(Side(t, atA)))
    && Side(s, atA).p.snd.una <= Side(t, atA).p.snd.una
    && t.a.p.cfg == s.a.p.cfg && t.b.p.cfg == s.b.p.cfg
  }

  lemma LaterTwice(s: Sys, t: Sys, u: Sys, atA: bool)
    requires Later(s, t, atA) && Later(t, u, atA)
    ensures Later(s, u, atA)
  {
    GrownTwice(Queued(Side(s, atA)), Queued(Side(t, atA)), Queued(Side(u, atA)));
  }

  lemma CallLater(s: Sys, atA: bool, who: bool, act: Action)
    requires Sound(s, atA) && s.a.p.cfg.mss > 0 && s.b.p.cfg.mss > 0
    ensures Sound(CallAt(s, who, act), atA) && Later(s, CallAt(s, who, act), atA)
  {
    hide HalfStep, Pair, Grown, Drained, ReadOk;
    var self, peer := Side(s, who), Side(s, !who);
    assert Pair(self, peer) by {
      PairUp(s, who);
    }
    StepKeepsPair(self, peer, act);
    UnPair(CallAt(s, who, act), who);
    if who == atA {
      StepGrows(self, peer, act);
    } else {
      StepDrains(self, peer, act);
      StepReads(self, peer, act);
      SameGrown(Queued(peer));
    }
  }

  lemma PairUp(s: Sys, who: bool)
    requires SysOk(s)
    ensures Pair(Side(s, who), Side(s, !who))
  {
  }

  lemma UnPair(s: Sys, who: bool)
    requires Pair(Side(s, who), Side(s, !who))
    ensures SysOk(s)
  {
  }

  lemma SameGrown(a: seq<Frag>)
    ensures Grown(a, a)
  {
  }

  lemma {:induction false} EventsLater(s: Sys, atA: bool, events: seq<Event>)
    requires Sound(s, atA) && s.a.p.cfg.mss > 0 && s.b.p.cfg.mss > 0
    ensures Sound(Steps(Exact, s, events), atA) && Later(s, Steps(Exact, s, events), atA)
  {
    hide Sound, HalfStep;
    if events == [] {
      SameGrown(Queued(Side(s, atA)));
    } else {
      var n := |events| - 1;
      EventsLater(s, atA, events[..n]);
      var t := Steps(Exact, s, events[..n]);
      CallLater(t, atA, events[n].atA, events[n].act);
      LaterTwice(s, t, CallAt(t, events[n].atA, events[n].act), atA);
    }
  }

  // ------------------------------------------------------------------ one exchange

  /** A flushing call of the sender, events in which its datagrams arrive, a flushing call of
      the peer, events in which those arrive. */
  datatype Exchange = Exchange(flush: Action, out: seq<Event>, reply: Action, back: seq<Event>)

  function Halfway(s: Sys, atA: bool, x: Exchange): (t: Sys)
    requires s.a.p.cfg.mss > 0 && s.b.p.cfg.mss > 0
    ensures t.a.p.cfg == s.a.p.cfg && t.b.p.cfg == s.b.p.cfg
  {
    Steps(Exact, CallAt(s, atA, x.flush), x.out)
  }

  function Exchanged(s: Sys, atA: bool, x: Exchange): (t: Sys)
    requires s.a.p.cfg.mss > 0 && s.b.p.cfg.mss > 0
    ensures t.a.p.cfg == s.a.p.cfg && t.b.p.cfg == s.b.p.cfg
  {
    Steps(Exact, CallAt(Halfway(s, atA, x), !atA, x.reply), x.back)
  }

  /** Something queued has not been acknowledged. */
  predicate Waiting(h: Half) {
    h.p.snd.una < |Queued(h)|
  }

  /** The call flushes and its flush transmits the oldest segment: it is due again, or
      nothing is in flight and the window admits one more. */
  predicate HeadDue(h: Half, act: Action) {
    && Flushes(h, act)
    && var p := Before(h, act);
    if p.snd.buf == [] then SendWindow(p) > 0 else !Judge(Exact, p.cfg, p.clock.current, p.snd.buf[0]).Keep?
  }

  /** A segment in flight always comes due: at its retransmission time, or when the next
      flush is expected, if that is a little later, ikcp_update transmits it. */
  lemma HeadComesDue(h: Half) returns (now: int)
    requires h.p.snd.buf != []
    ensures now == h.p.snd.buf[0].resendts || now == h.p.clock.tsFlush
    ensures HeadDue(h, DoUpdate(now))
  {
    var g, clock := h.p.snd.buf[0], h.p.clock;
    var slap := TimeDiff(g.resendts, clock.tsFlush);
    now := if !clock.updated || slap >= 0 || slap < -10000 then g.resendts else clock.tsFlush;
    StoredTime(now, g.resendts);
    StoredTime(now, clock.tsFlush);
    StoredTime(now, Wrap32(now));
    Opposite(g.resendts, clock.tsFlush);
    hide TimeDiff, Wrap32;
    assert FlushDue(Exact, h.p, now);
    assert Since(Exact, Wrap32(now), g.resendts) >= 0;
    hide FlushDue;
    assert !Judge(Exact, h.p.cfg, Wrap32(now), g).Keep?;
  }

  /** What ikcp_update stores of a time compares like that time. */
  lemma StoredTime(now: int, t: int)
    ensures TimeDiff(Wrap32(now), t) == TimeDiff(now, t) && TimeDiff(t, t) == 0
  {
    WrapShift(now - t, Wrap32(now) - t, now / 0x1_0000_0000);
  }

  lemma Opposite(a: int, b: int)
    ensures -10000 <= TimeDiff(a, b) < 0 ==> TimeDiff(b, a) > 0
  {
    if -10000 <= TimeDiff(a, b) < 0 {
      var d := TimeDiff(a, b);
      assert a - b - d == ((a - b) / 0x1_0000_0000 + (if Wrap32(a - b) < 0x8000_0000 then 0 else 1)) * 0x1_0000_0000;
      WrapShift(b - a, -d, -((a - b) / 0x1_0000_0000 + (if Wrap32(a - b) < 0x8000_0000 then 0 else 1)));
    }
  }

  /** While something waits: the peer has room, the oldest segment goes out, and all
      datagrams of the two flushes arrive. */
  ghost predicate Works(s: Sys, atA: bool, x: Exchange)
    requires s.a.p.cfg.mss > 0 && s.b.p.cfg.mss > 0
  {
    Waiting(Side(s, atA)) ==>
      var s1, s2 := CallAt(s, atA, x.flush), Halfway(s, atA, x);
      && |Side(s, !atA).p.rcv.queue| < Side(s, !atA).p.cfg.rcvWnd && HeadDue(Side(s, atA), x.flush)
      && Quiet(s1, x.out, !atA) && AllDelivered(s, s1, atA, x.out)
      && Flushes(Side(s2, !atA), x.reply) && AllDelivered(s2, CallAt(s2, !atA, x.reply), !atA, x.back)
  }

  lemma HeadNumber(p: Pcb)
    requires EndOk(p) && (p.snd.buf == [] ==> p.snd.queue != [] && SendWindow(p) > 0)
    ensures var buf := Admitted(Exact, p).buf;
            && buf != [] && buf[0].sn == p.snd.una
            && buf[0] == if p.snd.buf == [] then SndSeg(p.snd.nxt, p.snd.queue[0], p.clock.current, p.rtt.rto, 0, 0) else p.snd.buf[0]
  {
    var current, rto := p.clock.current, p.rtt.rto;
    if p.snd.buf == [] {
      var g := SndSeg(p.snd.nxt, p.snd.queue[0], current, rto, 0, 0);
      var s1 := p.snd.(queue := p.snd.queue[1..], nxt := p.snd.nxt + 1, buf := [g]);
      assert [] + [g] == [g];
      var k := AdmitNumbers(s1, SendWindow(p), current, rto);
    } else {
      var k := AdmitNumbers(p.snd, SendWindow(p), current, rto);
    }
  }

  /** The oldest segment is among what such a call encodes. */
  lemma HeadLeaves(h: Half, act: Action, peer: Half) returns (w: Wire)
    requires Pair(h, peer) && HeadDue(h, act) && Waiting(h)
    ensures w in Emission(h, act) && w.cmd == CMD_PUSH && w.sn == h.p.snd.una
  {
    hide Flushes, Admit, Judge;
    var p := Before(h, act);
    FlushingStep(h, peer.net, act);
    HeadNumber(p);
    var buf := Admitted(Exact, p).buf;
    assert p.snd.buf == [] ==> Judge(Exact, p.cfg, p.clock.current, buf[0]) == First by {
      NewIsFirst(p, buf[0]);
    }
    assert buf[0] in buf;
    PushWiresExact(Exact, p, buf);
    w := PushWire(p, buf[0]);
    assert w in FlushWires(Exact, p, Admitted(Exact, p));
  }

  lemma NewIsFirst(p: Pcb, g: SndSeg)
    ensures g.xmit == 0 ==> Judge(Exact, p.cfg, p.clock.current, g) == First
  {
  }

  /** When the peer has room, all that is acknowledged has arrived in order. */
  lemma AckedArrived(s: Half, r: Half)
    requires Pair(s, r) && Drained(r.p) && |r.p.rcv.queue| < r.p.cfg.rcvWnd
    ensures s.p.snd.una <= r.p.rcv.nxt
  {
    var nxt := r.p.rcv.nxt;
    assert nxt < s.p.snd.nxt ==> InSndBuf(s.p.snd.buf, nxt) || Received(r.p.rcv, nxt);
  }

  /** After one exchange the oldest segment has been acknowledged. */
  lemma HeadAcked(s: Sys, atA: bool, x: Exchange)
    requires Sound(s, atA) && s.a.p.cfg.mss > 0 && s.b.p.cfg.mss > 0 && Works(s, atA, x) && Waiting(Side(s, atA))
    requires SysOk(Exchanged(s, atA, x)) && Side(s, atA).p.snd.una <= Side(Exchanged(s, atA, x), atA).p.snd.una
    ensures Side(s, atA).p.snd.una < Side(Exchanged(s, atA, x), atA).p.snd.una
  {
    hide Quiet, Flushes, HeadDue, Emission, AllDelivered, Pair;
    PairUp(s, atA);
    AckedArrived(Side(s, atA), Side(s, !atA));
    var w := HeadLeaves(Side(s, atA), x.flush, Side(s, !atA));
    ExchangeProgresses(s, atA, x.flush, x.out, x.reply, x.back, w);
    var t := Side(Exchanged(s, atA, x), atA).p.snd;
    if t.buf != [] {
      assert t.buf[0] in t.buf;
    }
  }

  /** An exchange forgets nothing, and acknowledges a segment if one was waiting. */
  lemma ExchangeForward(s: Sys, atA: bool, x: Exchange)
    requires Sound(s, atA) && s.a.p.cfg.mss > 0 && s.b.p.cfg.mss > 0 && Works(s, atA, x)
    ensures var t := Exchanged(s, atA, x);
            && Sound(t, atA) && Later(s, t, atA)
            && (Waiting(Side(s, atA)) ==> Side(s, atA).p.snd.una < Side(t, atA).p.snd.una)
  {
    hide Works, Waiting, Drained, ReadOk, Later;
    var s1, s2 := CallAt(s, atA, x.flush), Halfway(s, atA, x);
    var s3, t := CallAt(s2, !atA, x.reply), Exchanged(s, atA, x);
    CallLater(s, atA, atA, x.flush);
    EventsLater(s1, atA, x.out);
    CallLater(s2, atA, !atA, x.reply);
    EventsLater(s3, atA, x.back);
    LaterTwice(s, s1, s2, atA);
    LaterTwice(s, s2, s3, atA);
    LaterTwice(s, s3, t, atA);
    if Waiting(Side(s, atA)) {
      UnaLater(s, t, atA);
      HeadAcked(s, atA, x);
    }
  }

  lemma UnaLater(s: Sys, t: Sys, atA: bool)
    requires Later(s, t, atA)
    ensures Side(s, atA).p.snd.una <= Side(t, atA).p.snd.una
  {
  }

  // --------------------------------------------------------------- many exchanges

  function AfterAll(s: Sys, atA: bool, xs: seq<Exchange>): (t: Sys)
    requires s.a.p.cfg.mss > 0 && s.b.p.cfg.mss > 0
    ensures t.a.p.cfg == s.a.p.cfg && t.b.p.cfg == s.b.p.cfg
  {
    if xs == [] then s else Exchanged(AfterAll(s, atA, xs[..|xs| - 1]), atA, xs[|xs| - 1])
  }

  ghost predicate AllWork(s: Sys, atA: bool, xs: seq<Exchange>)
    requires s.a.p.cfg.mss > 0 && s.b.p.cfg.mss > 0
  {
    xs == [] ||
    (AllWork(s, atA, xs[..|xs| - 1]) && Works(AfterAll(s, atA, xs[..|xs| - 1]), atA, xs[|xs| - 1]))
  }

  /** Each of them acknowledges one more segment, until all that was queued at the start is. */
  lemma {:induction false} ExchangesForward(s: Sys, atA: bool, xs: seq<Exchange>)
    requires Sound(s, atA) && s.a.p.cfg.mss > 0 && s.b.p.cfg.mss > 0 && AllWork(s, atA, xs)
    ensures var t := AfterAll(s, atA, xs);
            && Sound(t, atA) && Later(s, t, atA)
            && Min(Side(s, atA).p.snd.una + |xs|, |Queued(Side(s, atA))|) <= Side(t, atA).p.snd.una
  {
    hide Sound, Works, Exchanged;
    if xs == [] {
      SameGrown(Queued(Side(s, atA)));
    } else {
      var n := |xs| - 1;
      ExchangesForward(s, atA, xs[..n]);
      var t := AfterAll(s, atA, xs[..n]);
      ExchangeForward(t, atA, xs[n]);
      LaterTwice(s, t, Exchanged(t, atA, xs[n]), atA);
    }
  }

  lemma RunSound(cfgA: Config, cfgB: Config, events: seq<Event>, atA: bool)
    requires ValidConfig(cfgA) && ValidConfig(cfgB)
    ensures Sound(Run(Exact, cfgA, cfgB, events), atA)
  {
    RunOk(cfgA, cfgB, []);
    EventsLater(Run(Exact, cfgA, cfgB, []), atA, events);
  }

  /** From any state of any run: after as many exchanges that work as there are segments
      waiting, all that had been queued is acknowledged; and once the peer's receive queue
      has room, every byte ikcp_send had taken has been returned by the peer's ikcp_recv or
      waits in its queue, whatever else happened in between, more sends included. */
  lemma EverythingArrives(cfgA: Config, cfgB: Config, events: seq<Event>, atA: bool, xs: seq<Exchange>)
    requires ValidConfig(cfgA) && ValidConfig(cfgB)
    requires var s := Run(Exact, cfgA, cfgB, events);
             AllWork(s, atA, xs) && |Queued(Side(s, atA))| - Side(s, atA).p.snd.una <= |xs|
    ensures var s := Run(Exact, cfgA, cfgB, events);
            var t := AfterAll(s, atA, xs);
            var r := Side(t, !atA);
            && |Queued(Side(s, atA))| <= Side(t, atA).p.snd.una
            && (|r.p.rcv.queue| < r.p.cfg.rcvWnd ==>
                  SentBytes(cfgA, cfgB, events, atA) <= Joined(r.returned) + Bytes(r.p.rcv.queue))
  {
    var s := Run(Exact, cfgA, cfgB, events);
    RunSound(cfgA, cfgB, events, atA);
    RunPipes(cfgA, cfgB, events);
    hide Run, AllWork, Bytes, SentBytes;
    ExchangesForward(s, atA, xs);
    var t := AfterAll(s, atA, xs);
    if |Side(t, !atA).p.rcv.queue| < Side(t, !atA).p.cfg.rcvWnd {
      AllArrived(Side(s, atA), Side(t, atA), Side(t, !atA));
    }
  }

  lemma AllArrived(before: Half, s: Half, r: Half)
    requires Pair(s, r) && Drained(r.p) && ReadOk(r) && |r.p.rcv.queue| < r.p.cfg.rcvWnd
    requires Grown(Queued(before), Queued(s)) && |Queued(before)| <= s.p.snd.una
    ensures Bytes(Queued(before)) <= Joined(r.returned) + Bytes(r.p.rcv.queue)
  {
    AckedArrived(s, r);
    var k := r.p.rcv.nxt;
    assert Queued(s)[..k] == s.numbered[..k] == r.arrived;
    GrownBytes(Queued(before), Queued(s), k);
  }
}
