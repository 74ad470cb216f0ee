/** When a full receive queue can be emptied: never a problem with the second
    copy, and exactly a matter of message size with the first. */
module Deadlock {
  import opened Serial
  import opened KcpTypes
  import opened KcpSpec
  import opened Packing
  import opened System
  import opened Delivery
  import opened Messages

  /** The receive window is full and ikcp_recv has no whole message to give. */
  ghost predicate Stuck(p: Pcb) {
    |p.rcv.queue| >= p.cfg.rcvWnd && PeekSize(p.rcv.queue) < 0
  }

  // ------------------------------------------------------------- stream-mode senders

  ghost predicate ZeroFrags(q: seq<Frag>) {
    forall f :: f in q ==> f.frg == 0
  }

  /** In stream mode every fragment is a whole unit of its own, on both sides. */
  ghost predicate Plain(s: Half, r: Half) {
    s.p.cfg.stream ==> ZeroFrags(s.numbered) && ZeroFrags(s.p.snd.queue) && ZeroFrags(r.p.rcv.queue)
  }

  lemma {:induction false} CutPlain(mss: nat, data: seq<byte>, count: nat)
    requires count <= 256
    ensures ZeroFrags(Cut(mss, data, count, true))
  {
    if count > 0 {
      CutPlain(mss, data[Min(|data|, mss)..], count - 1);
    }
  }

  lemma SendPlain(cfg: Config, queue: seq<Frag>, msg: seq<byte>)
    requires cfg.mss > 0 && cfg.stream && ZeroFrags(queue)
    ensures ZeroFrags(Send(cfg, queue, msg).queue)
  {
    var rest := msg[StreamExtend(cfg, queue, msg)..];
    var count := FragCount(cfg.mss, |rest|);
    if !TooManyFrags(cfg.copy, count) {
      CutPlain(cfg.mss, rest, count);
    }
  }

  /** The sending side of a step. */
  lemma StepSendsPlain(self: Half, peer: Half, act: Action)
    requires Pair(self, peer) && Plain(self, peer)
    ensures Plain(HalfStep(Exact, self, peer.net, act), peer)
  {
    StepKeepsConfig(Exact, self, peer.net, act);
    if self.p.cfg.stream {
      if act.DoSend? {
        SendPlain(self.p.cfg, self.p.snd.queue, act.msg);
      } else {
        SentFrame(self, peer, act);
        var h := HalfStep(Exact, self, peer.net, act);
        ZeroSplit(h.numbered, h.p.snd.queue, self.numbered, self.p.snd.queue);
      }
      hide HalfStep;
    }
  }

  lemma ZeroSplit(a: seq<Frag>, b: seq<Frag>, c: seq<Frag>, d: seq<Frag>)
    requires a + b == c + d && ZeroFrags(c) && ZeroFrags(d)
    ensures ZeroFrags(a) && ZeroFrags(b)
  {
    assert forall f :: f in c + d ==> f.frg == 0;
    assert forall f :: f in a ==> f in a + b;
    assert forall f :: f in b ==> f in a + b;
  }

  lemma AdvancePlain(a: Receiver, b: Receiver, numbered: seq<Frag>)
    requires RcvAdvance(a, b, numbered) && ZeroFrags(a.queue) && ZeroFrags(numbered)
    ensures ZeroFrags(b.queue)
  {
  }

  /** The receiving side of a step. */
  lemma StepReceivesPlain(self: Half, peer: Half, act: Action)
    requires Pair(self, peer) && Plain(peer, self)
    ensures Plain(peer, HalfStep(Exact, self, peer.net, act))
  {
    if peer.p.cfg.stream {
      var h := HalfStep(Exact, self, peer.net, act);
      match act
      case DoSend(msg) =>
      case DoRecv(len) =>
        var v := Recv(Exact, self.p.rcv, self.p.cfg.rcvWnd, len);
        var drop := if v.ret >= 0 && len >= 0 then HeadCount(self.p.rcv.queue) else 0;
        RecvAdvances(self.p.rcv, self.p.cfg.rcvWnd, len, peer.numbered);
        AdvancePlain(self.p.rcv.(queue := self.p.rcv.queue[drop..]), v.rcv, peer.numbered);
      case DoUpdate(now) => UpdateOk(self.p, now, self.numbered, peer.numbered, peer.p.rcv);
      case DoFlush => FlushKeeps(self.p, self.numbered, peer.numbered, peer.p.rcv);
      case Deliver(k) =>
        if k < |peer.net| {
          InputKeeps(self.p, self.numbered, peer.numbered, peer.p.rcv, peer.net[k]);
          AdvancePlain(self.p.rcv, h.p.rcv, peer.numbered);
        }
    }
  }

  lemma {:induction false} RunPlain(cfgA: Config, cfgB: Config, events: seq<Event>)
    requires ValidConfig(cfgA) && ValidConfig(cfgB)
    ensures var s := Run(Exact, cfgA, cfgB, events);
            Plain(s.a, s.b) && Plain(s.b, s.a)
  {
    if events != [] {
      var n := |events| - 1;
      RunPlain(cfgA, cfgB, events[..n]);
      RunOk(cfgA, cfgB, events[..n]);
      var s := Run(Exact, cfgA, cfgB, events[..n]);
      if events[n].atA {
        StepSendsPlain(s.a, s.b, events[n].act);
        StepReceivesPlain(s.a, s.b, events[n].act);
      } else {
        StepSendsPlain(s.b, s.a, events[n].act);
        StepReceivesPlain(s.b, s.a, events[n].act);
      }
    }
  }

  // ------------------------------------------------------------------ when it is stuck

  /** The number of fragments the next ikcp_recv needs: all those of the next message, or
      one when the sender is in stream mode. */
  function NextCount(s: Half, r: Half): nat
    requires s.p.cfg.mss > 0
  {
    if s.p.cfg.stream then 1
    else if |r.returned| < |s.accepted| then FragCount(s.p.cfg.mss, |s.accepted[|r.returned|]|) else 0
  }

  lemma PlainNeverStuck(s: Half, r: Half)
    requires Plain(s, r) && s.p.cfg.stream && r.p.cfg.rcvWnd >= 1
    ensures !Stuck(r.p)
  {
    if r.p.rcv.queue != [] {
      assert r.p.rcv.queue[0] in r.p.rcv.queue;
    }
  }

  lemma StuckBetween(s: Half, r: Half)
    requires Pair(s, r) && Plain(s, r) && (!s.p.cfg.stream ==> MsgSnd(s) && MsgRcv(s, r))
    requires |r.p.rcv.queue| >= r.p.cfg.rcvWnd
    ensures Stuck(r.p) <==> NextCount(s, r) > r.p.cfg.rcvWnd
  {
    if s.p.cfg.stream {
      PlainNeverStuck(s, r);
    } else {
      var later := NextMessage(s, r);
      PeekIsComplete(s.p.cfg.mss, s.accepted[|r.returned|], r.p.rcv.queue, later);
    }
  }

  /** In every run, at either end and in either mode, a full receive queue is stuck
      exactly when what is to be read next has more fragments than the window. */
  lemma StuckWhen(cfgA: Config, cfgB: Config, events: seq<Event>, atA: bool)
    requires ValidConfig(cfgA) && ValidConfig(cfgB)
    ensures var s := Run(Exact, cfgA, cfgB, events);
            var r := Side(s, atA);
            |r.p.rcv.queue| >= r.p.cfg.rcvWnd ==> (Stuck(r.p) <==> NextCount(Side(s, !atA), r) > r.p.cfg.rcvWnd)
  {
    RunOk(cfgA, cfgB, events);
    RunMsgs(cfgA, cfgB, events);
    RunPlain(cfgA, cfgB, events);
    var s := Run(Exact, cfgA, cfgB, events);
    if |Side(s, atA).p.rcv.queue| >= Side(s, atA).p.cfg.rcvWnd {
      StuckBetween(Side(s, !atA), Side(s, atA));
    }
  }

  /** With the second copy at both ends no run ever gets stuck, at either end and in
      either mode: it sends fewer than 128 fragments and keeps a window of at least 128. */
  lemma ExtendedNeverStuck(cfgA: Config, cfgB: Config, events: seq<Event>, atA: bool)
    requires ValidConfig(cfgA) && ValidConfig(cfgB)
    requires cfgA.copy.Extended? && cfgB.copy.Extended?
    ensures !Stuck(Side(Run(Exact, cfgA, cfgB, events), atA).p)
  {
    var s := Run(Exact, cfgA, cfgB, events);
    StuckWhen(cfgA, cfgB, events, atA);
    RunMsgs(cfgA, cfgB, events);
    var r, t := Side(s, atA), Side(s, !atA);
    if !t.p.cfg.stream && |r.returned| < |t.accepted| {
      assert t.accepted[|r.returned|] in t.accepted;
    }
  }

  lemma {:induction false} StuckInput(m: Mode, c: InCtx, ws: seq<Wire>)
    requires |c.s.rcv.queue| >= c.s.cfg.rcvWnd
    ensures var d := InputWires(m, c, ws);
            d.s.rcv.queue == c.s.rcv.queue && d.s.cfg == c.s.cfg
    decreases |ws|
  {
    if ws != [] {
      StuckInput(m, InputWire(m, c, ws[0]), ws[1..]);
    }
  }

  /** Being stuck is permanent: no call and no datagram, true or false, ever
      changes the queue again. */
  lemma StuckForever(m: Mode, self: Half, peerNet: seq<Datagram>, act: Action)
    requires self.p.cfg.mss > 0 && Stuck(self.p)
    ensures var h := HalfStep(m, self, peerNet, act);
            Stuck(h.p) && h.p.rcv.queue == self.p.rcv.queue && h.returned == self.returned
  {
    match act
    case DoSend(msg) =>
    case DoRecv(len) =>
    case DoUpdate(now) =>
    case DoFlush =>
    case Deliver(k) =>
      if k < |peerNet| {
        StuckInput(m, InCtx(self.p, false, 0), peerNet[k]);
      }
  }

  lemma RunAppend(m: Mode, cfgA: Config, cfgB: Config, events: seq<Event>, e: Event)
    requires ValidConfig(cfgA) && ValidConfig(cfgB)
    ensures Run(m, cfgA, cfgB, events + [e]) == SysStep(m, Run(m, cfgA, cfgB, events), e)
  {
    assert (events + [e])[..|events|] == events;
  }

  /** Once an endpoint is stuck, in whatever state of the system, no continuation of the
      run makes it return another message. */
  lemma {:induction false} StuckRun(m: Mode, s: Sys, atA: bool, more: seq<Event>)
    requires s.a.p.cfg.mss > 0 && s.b.p.cfg.mss > 0 && Stuck(Side(s, atA).p)
    ensures var h := Side(Steps(m, s, more), atA);
            Stuck(h.p) && h.returned == Side(s, atA).returned
    decreases |more|
  {
    if more != [] {
      var n := |more| - 1;
      StuckRun(m, s, atA, more[..n]);
      var t := Steps(m, s, more[..n]);
      if more[n].atA == atA {
        StuckForever(m, Side(t, atA), Side(t, !atA).net, more[n].act);
      }
    }
  }

  /** A sender of the first copy with a small mtu, and a receiver whose window was
      set to one segment. */
  const SMALL_SENDER: Config := Config(Basic, 7, 50, 26, 32, 32, 0, 100, 100, 0, 5, true, false, 20)
  const SMALL_RECEIVER: Config := Config(Basic, 7, 1400, 1376, 32, 1, 0, 100, 100, 0, 5, true, false, 20)
  const TWO_PIECES: seq<byte> := seq(27, i => 0)
  const GET_STUCK: seq<Event> := [Event(true, DoSend(TWO_PIECES)), Event(true, DoFlush), Event(false, Deliver(0))]

  /** The first copy can get stuck: it accepts a message of two fragments although
      the peer's window holds one, and after one delivered datagram the receiver
      is stuck. */
  lemma BasicGetsStuck()
    ensures ValidConfig(SMALL_SENDER) && ValidConfig(SMALL_RECEIVER)
    ensures Stuck(Run(Exact, SMALL_SENDER, SMALL_RECEIVER, GET_STUCK).b.p)
  {
    var s0 := Run(Exact, SMALL_SENDER, SMALL_RECEIVER, []);
    var e := GET_STUCK;
    assert [] + [e[0]] == [e[0]];
    assert [e[0]] + [e[1]] == [e[0], e[1]];
    assert [e[0], e[1]] + [e[2]] == e;
    RunAppend(Exact, SMALL_SENDER, SMALL_RECEIVER, [], e[0]);
    RunAppend(Exact, SMALL_SENDER, SMALL_RECEIVER, [e[0]], e[1]);
    RunAppend(Exact, SMALL_SENDER, SMALL_RECEIVER, [e[0], e[1]], e[2]);
    var a1 := SendTwoPieces();
    var w := FlushTwoPieces(a1);
    DeliverFirstPiece(EmitStep(a1, Flush(Exact, a1.p)).net, w);
  }

  lemma SendTwoPieces() returns (h: Half)
    ensures h == SendStep(Start(SMALL_SENDER), TWO_PIECES)
    ensures h.p == Create(SMALL_SENDER).(snd := Sender(0, 0, [Frag(1, TWO_PIECES[..26]), Frag(0, TWO_PIECES[26..])], []))
    ensures h.net == []
  {
    h := SendStep(Start(SMALL_SENDER), TWO_PIECES);
    var msg := TWO_PIECES;
    assert msg[0..] == msg;
    assert FragCount(26, 27) == 2;
    assert Cut(26, msg[26..], 1, false) == [Frag(0, msg[26..])] by {
      assert msg[26..][..1] == msg[26..];
    }
    assert Cut(26, msg, 2, false) == [Frag(1, msg[..26]), Frag(0, msg[26..])];
  }

  lemma FlushTwoPieces(h: Half) returns (w: Wire)
    requires h.p == Create(SMALL_SENDER).(snd := Sender(0, 0, [Frag(1, TWO_PIECES[..26]), Frag(0, TWO_PIECES[26..])], []))
    requires h.net == []
    ensures var net := EmitStep(h, Flush(Exact, h.p)).net;
            |net| > 0 && net[0] == [w] && w.cmd == CMD_PUSH && w.frg == 1 && w.sn == 0 && w.una == 0
  {
    var p := h.p;
    var g0 := SndSeg(0, p.snd.queue[0], 0, 200, 0, 0);
    var g1 := SndSeg(1, p.snd.queue[1], 0, 200, 0, 0);
    var s1 := Sender(0, 1, p.snd.queue[1..], [g0]);
    var s2 := Sender(0, 2, [], [g0, g1]);
    assert Admit(Exact, s1, 32, 0, 200) == Admit(Exact, s2, 32, 0, 200) == s2 by {
      assert [g0] + [g1] == [g0, g1];
      assert p.snd.queue[1..][1..] == [];
    }
    assert Admitted(Exact, p) == Admit(Exact, p.snd, 32, 0, 200) == s2 by {
      assert [] + [g0] == [g0];
    }
    w := PushWire(p, g0);
    var w1 := PushWire(p, g1);
    assert PushWires(Exact, p, [g0]) == [w] by {
      assert [g0][..0] == [];
    }
    assert PushWires(Exact, p, [g0, g1]) == [w, w1] by {
      assert [g0, g1][..1] == [g0];
    }
    var ws := FlushWires(Exact, p, s2);
    assert ws == [w, w1];
    PackTwo(w, w1);
  }

  lemma PackTwo(w: Wire, w1: Wire)
    requires |w.data| == 26
    ensures |Pack(50, [w, w1])| > 0 && Pack(50, [w, w1])[0] == [w]
  {
    PutAllAppend(50, [], w);
    assert [] + [w] == [w];
    PutAllAppend(50, [w], w1);
    assert [w] + [w1] == [w, w1];
    SizeAppend([], w);
  }

  lemma DeliverFirstPiece(net: seq<Datagram>, w: Wire)
    requires |net| > 0 && net[0] == [w] && w.cmd == CMD_PUSH && w.frg == 1 && w.sn == 0 && w.una == 0
    ensures Stuck(HalfStep(Exact, Start(SMALL_RECEIVER), net, Deliver(0)).p)
  {
    var p := Create(SMALL_RECEIVER);
    var c := InCtx(p, false, 0);
    var seg := RcvSeg(0, Frag(1, w.data));
    var r1 := p.rcv.(acks := p.rcv.acks + [Ack(0, w.ts)], buf := [seg]);
    var r2 := r1.(buf := [], queue := [seg.frag], nxt := 1);
    assert MoveReady(Exact, r1, 1) == r2 by {
      assert r1.queue + [seg.frag] == [seg.frag];
      assert r1.buf[1..] == [];
    }
    assert ReceivePush(Exact, p.rcv, 1, w) == r2;
    assert InputWires(Exact, c, [w]) == InputWires(Exact, InputWire(Exact, c, w), []);
    assert InputWire(Exact, c, w).s.rcv == r2;
  }
}
