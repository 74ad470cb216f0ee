/** Whole runs of the system on wrapping sequence numbers. */
module WrapRun {
  import opened Serial
  import opened KcpTypes
  import opened KcpSpec
  import opened Packing
  import opened Endpoint
  import opened System
  import opened Delivery
  import opened Messages
  import opened Refinement

  // ------------------------------------------------------------ whole input

  function WrapCtx(c: InCtx): InCtx {
    InCtx(WrapPcb(c.s), c.flag, Wrap32(c.maxack))
  }

  /** Every number in w is near enough to what p compares it with. */
  ghost predicate Readable(p: Pcb, w: Wire) {
    && Near(w.una, p.snd.una)
    && (w.cmd == CMD_ACK ==> Near(w.sn, AfterUna(p.snd, w.una).una))
    && (w.cmd == CMD_PUSH ==> Near(w.sn, p.rcv.nxt + p.cfg.rcvWnd))
  }

  lemma WireWraps(c: InCtx, w: Wire)
    requires EndOk(c.s) && Readable(c.s, w)
    requires w.cmd == CMD_ACK && c.flag ==> Near(w.sn, c.maxack)
    ensures InputWire(Wrapping, WrapCtx(c), WrapWire(w)) == WrapCtx(InputWire(Exact, c, w))
  {
    InputSndWraps(c.s.snd, c.s.cfg.sndWnd, w);
    InputRcvWraps(c.s.rcv, c.s.cfg.rcvWnd, w);
    if w.cmd == CMD_ACK && c.flag {
      NearDiff(w.sn, c.maxack);
    }
  }

  /** No number in w is 2^31 or more behind the newest number of its stream. */
  ghost predicate RecentWire(w: Wire, ownNxt: int, peerNxt: int, rcvWnd: nat) {
    && w.una >= ownNxt - HALF
    && (w.cmd == CMD_ACK ==> w.sn >= ownNxt - HALF)
    && (w.cmd == CMD_PUSH ==> w.sn >= peerNxt + rcvWnd - HALF)
  }

  /** maxack is an acknowledged number the sender has given out recently. */
  ghost predicate MaxAckOk(c: InCtx) {
    c.flag ==> c.s.snd.nxt - HALF <= c.maxack < c.s.snd.nxt
  }

  /** True and recent segments are readable. */
  lemma RecentIsReadable(p: Pcb, own: seq<Frag>, peers: seq<Frag>, peer: Receiver, w: Wire)
    requires Keeps(p, own, peers, peer) && PushTrue(w, peers) && AckTrue(w, peer)
    requires RcvHist(peer, own) && |peers| < p.rcv.nxt + p.cfg.rcvWnd + HALF
    requires RecentWire(w, p.snd.nxt, |peers|, p.cfg.rcvWnd)
    ensures Readable(p, w)
    ensures w.cmd == CMD_ACK ==> p.snd.nxt - HALF <= w.sn < p.snd.nxt
  {
    UnaShrinks(p.snd, p.cfg.sndWnd, w.una);
    if w.cmd == CMD_ACK && w.sn >= peer.nxt {
      assert InRcvBuf(peer.buf, w.sn);
    }
  }

  lemma {:induction false} WiresWrap(c: InCtx, own: seq<Frag>, peers: seq<Frag>, peer: Receiver, ws: seq<Wire>)
    requires Keeps(c.s, own, peers, peer) && MaxAckOk(c)
    requires RcvHist(peer, own) && |peers| < c.s.rcv.nxt + c.s.cfg.rcvWnd + HALF
    requires forall w :: w in ws ==>
               PushTrue(w, peers) && AckTrue(w, peer) && RecentWire(w, c.s.snd.nxt, |peers|, c.s.cfg.rcvWnd)
    ensures InputWires(Wrapping, WrapCtx(c), WrapWires(ws)) == WrapCtx(InputWires(Exact, c, ws))
    ensures MaxAckOk(InputWires(Exact, c, ws))
    decreases |ws|
  {
    if ws != [] {
      RecentIsReadable(c.s, own, peers, peer, ws[0]);
      WireWraps(c, ws[0]);
      WireKeeps(c, own, peers, peer, ws[0]);
      assert WrapWires(ws)[1..] == WrapWires(ws[1..]);
      WiresWrap(InputWire(Exact, c, ws[0]), own, peers, peer, ws[1..]);
    }
  }

  /** The end of ikcp_input: fast acks and window growth. */
  lemma FinishWraps(p: Pcb, c: InCtx)
    requires EndOk(p) && EndOk(c.s) && MaxAckOk(c)
    requires p.cfg == c.s.cfg && p.snd.nxt == c.s.snd.nxt && p.snd.una <= c.s.snd.una
    ensures c.flag ==> ParseFastack(Wrapping, WrapSnd(c.s.snd), Wrap32(c.maxack)) == WrapSnd(ParseFastack(Exact, c.s.snd, c.maxack))
    ensures Diff(Wrapping, Wrap32(c.s.snd.una), Wrap32(p.snd.una)) == c.s.snd.una - p.snd.una
  {
    NearDiff(c.s.snd.una, p.snd.una);
    if c.flag {
      if Near(c.maxack, c.s.snd.una) {
        FastackWraps(c.s.snd, c.s.cfg.sndWnd, c.maxack);
      }
    }
  }

  lemma InputWraps(p: Pcb, own: seq<Frag>, peers: seq<Frag>, peer: Receiver, ws: seq<Wire>)
    requires Keeps(p, own, peers, peer)
    requires RcvHist(peer, own) && |peers| < p.rcv.nxt + p.cfg.rcvWnd + HALF
    requires forall w :: w in ws ==>
               PushTrue(w, peers) && AckTrue(w, peer) && RecentWire(w, p.snd.nxt, |peers|, p.cfg.rcvWnd)
    ensures Input(Wrapping, WrapPcb(p), WrapWires(ws), true) == WrapPcb(Input(Exact, p, ws, true))
  {
    var c0 := InCtx(p, false, 0);
    WiresWrap(c0, own, peers, peer, ws);
    WiresKeep(c0, own, peers, peer, ws);
    var c := InputWires(Exact, c0, ws);
    FinishWraps(p, c);
    CountSkippedKeeps(Exact, c.s.snd.buf, c.maxack);
  }

  // ------------------------------------------------------------- whole runs

  function WrapNet(net: seq<Datagram>): (r: seq<Datagram>)
    ensures |r| == |net|
  {
    seq(|net|, i requires 0 <= i < |net| => WrapWires(net[i]))
  }

  function WrapHalf(h: Half): Half {
    h.(p := WrapPcb(h.p), net := WrapNet(h.net))
  }

  function WrapSys(s: Sys): Sys {
    Sys(WrapHalf(s.a), WrapHalf(s.b))
  }

  /** The datagram a step delivers, if it delivers one, is not too old. */
  ghost predicate RecentStep(self: Half, peer: Half, act: Action) {
    act.Deliver? && act.k < |peer.net| ==>
      forall w :: w in peer.net[act.k] ==> RecentWire(w, self.p.snd.nxt, peer.p.snd.nxt, self.p.cfg.rcvWnd)
  }

  ghost predicate RecentRun(cfgA: Config, cfgB: Config, events: seq<Event>)
    requires ValidConfig(cfgA) && ValidConfig(cfgB)
  {
    events == [] ||
    var n := |events| - 1;
    var s := Run(Exact, cfgA, cfgB, events[..n]);
    && RecentRun(cfgA, cfgB, events[..n])
    && (if events[n].atA then RecentStep(s.a, s.b, events[n].act) else RecentStep(s.b, s.a, events[n].act))
  }

  /** The two windows bound how far the peer's numbering can be ahead. */
  lemma NumberingBound(self: Half, peer: Half)
    requires Pair(self, peer)
    ensures |peer.numbered| < self.p.rcv.nxt + self.p.cfg.rcvWnd + HALF
  {
    var edge := self.p.rcv.nxt + self.p.cfg.rcvWnd;
    if edge < peer.p.snd.nxt {
      assert InSndBuf(peer.p.snd.buf, edge) || Received(self.p.rcv, edge);
      assert peer.p.snd.una <= edge;
    }
  }

  lemma {:induction false} PutAllWraps(mtu: nat, ws: seq<Wire>)
    ensures var p := PutAll(mtu, ws);
            PutAll(mtu, WrapWires(ws)) == Packer(WrapNet(p.out), WrapWires(p.cur))
  {
    if ws != [] {
      var n := |ws| - 1;
      PutAllWraps(mtu, ws[..n]);
      assert WrapWires(ws)[..n] == WrapWires(ws[..n]);
      PutWraps(mtu, PutAll(mtu, ws[..n]), ws[n]);
    }
  }

  lemma PutWraps(mtu: nat, p: Packer, w: Wire)
    ensures var q := Put(mtu, p, w);
            Put(mtu, Packer(WrapNet(p.out), WrapWires(p.cur)), WrapWire(w)) == Packer(WrapNet(q.out), WrapWires(q.cur))
  {
    SizeWraps(p.cur);
    assert WrapNet(p.out + [p.cur]) == WrapNet(p.out) + [WrapWires(p.cur)];
    assert WrapWires([w]) == [WrapWire(w)];
    assert WrapWires(p.cur + [w]) == WrapWires(p.cur) + [WrapWire(w)];
  }

  lemma {:induction false} SizeWraps(d: Datagram)
    ensures Size(WrapWires(d)) == Size(d)
  {
    if d != [] {
      SizeWraps(d[..|d| - 1]);
      assert WrapWires(d)[..|d| - 1] == WrapWires(d[..|d| - 1]);
    }
  }

  lemma EmitWraps(h: Half, f: Flushed)
    ensures EmitStep(WrapHalf(h), Flushed(WrapPcb(f.s), WrapWires(f.wires))) == WrapHalf(EmitStep(h, f))
  {
    var mtu := h.p.cfg.mtu;
    PutAllWraps(mtu, f.wires);
    var p := PutAll(mtu, f.wires);
    assert WrapNet(p.out + [p.cur]) == WrapNet(p.out) + [WrapWires(p.cur)];
    assert Pack(mtu, WrapWires(f.wires)) == WrapNet(Pack(mtu, f.wires));
    assert WrapNet(h.net + Pack(mtu, f.wires)) == WrapNet(h.net) + WrapNet(Pack(mtu, f.wires));
  }

  lemma DeliverWraps(self: Half, peer: Half, k: nat)
    requires Pair(self, peer) && RecentStep(self, peer, Deliver(k)) && k < |peer.net|
    ensures InputStep(Wrapping, WrapHalf(self), WrapWires(peer.net[k])) == WrapHalf(InputStep(Exact, self, peer.net[k]))
  {
    NumberingBound(self, peer);
    assert peer.net[k] in peer.net;
    InputWraps(self.p, self.numbered, peer.numbered, peer.p.rcv, peer.net[k]);
  }

  lemma StepWraps(self: Half, peer: Half, act: Action)
    requires Pair(self, peer) && RecentStep(self, peer, act)
    ensures HalfStep(Wrapping, WrapHalf(self), WrapNet(peer.net), act) == WrapHalf(HalfStep(Exact, self, peer.net, act))
  {
    match act
    case DoSend(msg) =>
    case DoRecv(len) => RecvWraps(self.p.rcv, self.p.cfg.rcvWnd, len);
    case DoUpdate(now) =>
      UpdateWraps(self.p, now);
      EmitWraps(self, Update(Exact, self.p, now));
    case DoFlush =>
      FlushWraps(self.p);
      EmitWraps(self, Flush(Exact, self.p));
    case Deliver(k) =>
      if k < |peer.net| {
        DeliverWraps(self, peer, k);
      }
  }

  /** The machine on 32-bit numbers runs in step with the Exact machine, across any
      number of wraps, in every run that delivers only recent datagrams. */
  lemma {:induction false} RunWraps(cfgA: Config, cfgB: Config, events: seq<Event>)
    requires ValidConfig(cfgA) && ValidConfig(cfgB) && RecentRun(cfgA, cfgB, events)
    ensures Run(Wrapping, cfgA, cfgB, events) == WrapSys(Run(Exact, cfgA, cfgB, events))
  {
    if events == [] {
      StartWraps(cfgA);
      StartWraps(cfgB);
    } else {
      var n := |events| - 1;
      RunWraps(cfgA, cfgB, events[..n]);
      RunOk(cfgA, cfgB, events[..n]);
      var s := Run(Exact, cfgA, cfgB, events[..n]);
      if events[n].atA {
        StepWraps(s.a, s.b, events[n].act);
      } else {
        StepWraps(s.b, s.a, events[n].act);
      }
    }
  }

  /** Message delivery on wrapping numbers. */
  lemma MessagesArePrefixOnU32(cfgA: Config, cfgB: Config, events: seq<Event>)
    requires ValidConfig(cfgA) && ValidConfig(cfgB) && !cfgA.stream && !cfgB.stream
    requires RecentRun(cfgA, cfgB, events)
    ensures var s := Run(Wrapping, cfgA, cfgB, events);
            s.b.returned <= s.a.accepted && s.a.returned <= s.b.accepted
  {
    RunWraps(cfgA, cfgB, events);
    MessagesArePrefix(cfgA, cfgB, events);
  }

  lemma StepNumbers(self: Half, peer: Half, act: Action)
    requires Pair(self, peer)
    ensures self.p.snd.nxt <= HalfStep(Exact, self, peer.net, act).p.snd.nxt
  {
    StepKeepsPair(self, peer, act);
    assert self.numbered <= HalfStep(Exact, self, peer.net, act).numbered;
  }

  /** Until 2^31 segments have been numbered, less a window, every datagram is recent. */
  lemma {:induction false} ShortRunsAreRecent(cfgA: Config, cfgB: Config, events: seq<Event>)
    requires ValidConfig(cfgA) && ValidConfig(cfgB)
    requires var s := Run(Exact, cfgA, cfgB, events);
             s.a.p.snd.nxt + cfgB.rcvWnd <= HALF && s.b.p.snd.nxt + cfgA.rcvWnd <= HALF
    ensures RecentRun(cfgA, cfgB, events)
  {
    if events != [] {
      var n := |events| - 1;
      var s := Run(Exact, cfgA, cfgB, events[..n]);
      RunOk(cfgA, cfgB, events[..n]);
      if events[n].atA {
        StepNumbers(s.a, s.b, events[n].act);
        TrueIsRecent(s.a, s.b, events[n].act);
      } else {
        StepNumbers(s.b, s.a, events[n].act);
        TrueIsRecent(s.b, s.a, events[n].act);
      }
      ShortRunsAreRecent(cfgA, cfgB, events[..n]);
    }
  }

  lemma TrueIsRecent(self: Half, peer: Half, act: Action)
    requires Pair(self, peer) && self.p.snd.nxt <= HALF && peer.p.snd.nxt + self.p.cfg.rcvWnd <= HALF
    ensures RecentStep(self, peer, act)
  {
    if act.Deliver? && act.k < |peer.net| {
      var d := peer.net[act.k];
      assert d in peer.net;
      forall w | w in d
        ensures RecentWire(w, self.p.snd.nxt, peer.p.snd.nxt, self.p.cfg.rcvWnd)
      {
        assert AckTrue(w, peer.p.rcv) && PushTrue(w, peer.numbered);
      }
    }
  }

  lemma StartWraps(cfg: Config)
    ensures WrapHalf(Start(cfg)) == Start(cfg)
  {
    assert WrapSegs([]) == [] && WrapRcvSegs([]) == [] && WrapAcks([]) == [] && WrapNet([]) == [];
  }
}
