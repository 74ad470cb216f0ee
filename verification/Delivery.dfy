/** Reliable delivery on the Exact machine, for every run: what reaches the
    receive queue is the numbered sequence, in order, exactly once and unaltered,
    and no numbered segment is ever forgotten by both sides. */
module Delivery {
  import opened Serial
  import opened KcpTypes
  import opened KcpSpec
  import opened Packing
  import opened Endpoint
  import opened System

  /** Every segment in snd_buf carries the fragment its number was given to. */
  ghost predicate SndHist(s: Sender, numbered: seq<Frag>) {
    |numbered| == s.nxt && forall g :: g in s.buf ==> 0 <= g.sn < |numbered| && g.frag == numbered[g.sn]
  }

  ghost predicate RcvHist(r: Receiver, numbered: seq<Frag>) {
    0 <= r.nxt <= |numbered| && forall g :: g in r.buf ==> 0 <= g.sn < |numbered| && g.frag == numbered[g.sn]
  }

  /** Every number given out is still held by the sender or has been received. */
  ghost predicate NoLoss(s: Sender, r: Receiver) {
    forall sn :: 0 <= sn < s.nxt ==> InSndBuf(s.buf, sn) || Received(r, sn)
  }

  /** A push in the network carries the fragment its number was given to. */
  ghost predicate PushTrue(w: Wire, numbered: seq<Frag>) {
    w.cmd == CMD_PUSH ==> 0 <= w.sn < |numbered| && Frag(w.frg, w.data) == numbered[w.sn]
  }

  /** An una or ack in the network, however old, speaks of received segments only. */
  ghost predicate AckTrue(w: Wire, r: Receiver) {
    0 <= w.una <= r.nxt && (w.cmd == CMD_ACK ==> 0 <= w.sn && Received(r, w.sn))
  }

  ghost predicate AcksTrue(r: Receiver) {
    forall a :: a in r.acks ==> 0 <= a.sn && Received(r, a.sn)
  }

  ghost predicate PushesTrue(net: seq<Datagram>, numbered: seq<Frag>) {
    forall d, w :: d in net && w in d ==> PushTrue(w, numbered)
  }

  ghost predicate AllAcksTrue(net: seq<Datagram>, r: Receiver) {
    forall d, w :: d in net && w in d ==> AckTrue(w, r)
  }

  /** What holds of the direction from s to r. */
  ghost predicate Dir(s: Half, r: Half) {
    && SndHist(s.p.snd, s.numbered)
    && RcvHist(r.p.rcv, s.numbered)
    && r.arrived == s.numbered[..r.p.rcv.nxt]
    && NoLoss(s.p.snd, r.p.rcv)
    && AcksTrue(r.p.rcv)
    && PushesTrue(s.net, s.numbered)
    && AllAcksTrue(r.net, r.p.rcv)
  }

  ghost predicate SysOk(s: Sys) {
    EndOk(s.a.p) && EndOk(s.b.p) && Dir(s.a, s.b) && Dir(s.b, s.a)
  }

  // ------------------------------------------------- one incoming segment

  /** The receive side moved on from a to b along the peer's numbered sequence. */
  ghost predicate RcvAdvance(a: Receiver, b: Receiver, numbered: seq<Frag>) {
    && 0 <= a.nxt <= b.nxt <= |numbered|
    && b.queue == a.queue + numbered[a.nxt..b.nxt]
    && (forall sn :: Received(a, sn) ==> Received(b, sn))
  }

  lemma FragsAreNumbered(buf: seq<RcvSeg>, k: nat, nxt: nat, numbered: seq<Frag>)
    requires k <= |buf|
    requires forall g :: g in buf ==> 0 <= g.sn < |numbered| && g.frag == numbered[g.sn]
    requires forall i :: 0 <= i < k ==> buf[i].sn == nxt + i
    requires nxt <= |numbered|
    ensures nxt + k <= |numbered| && Frags(buf[..k]) == numbered[nxt..nxt + k]
  {
    forall i | 0 <= i < k
      ensures nxt + i < |numbered| && buf[i].frag == numbered[nxt + i]
    {
      assert buf[i] in buf;
    }
    if k > 0 {
      assert buf[k - 1] in buf;
    }
  }

  lemma MoveReadyAdvances(r: Receiver, wnd: nat, numbered: seq<Frag>)
    requires RcvOk(r, wnd) && RcvHist(r, numbered)
    ensures var t := MoveReady(Exact, r, wnd);
            RcvAdvance(r, t, numbered) && RcvHist(t, numbered) && RcvOk(t, wnd) && t.acks == r.acks
  {
    MoveReadyOk(r, wnd);
    var k := MoveReadyMoves(r, wnd);
    FragsAreNumbered(r.buf, k, r.nxt, numbered);
  }

  lemma PushAdvances(r: Receiver, wnd: nat, numbered: seq<Frag>, w: Wire)
    requires RcvOk(r, wnd) && RcvHist(r, numbered) && w.cmd == CMD_PUSH && PushTrue(w, numbered)
    ensures var t := ReceivePush(Exact, r, wnd, w);
            RcvAdvance(r, t, numbered) && RcvHist(t, numbered)
  {
    if r.nxt <= w.sn < r.nxt + wnd {
      var seg := RcvSeg(w.sn, Frag(w.frg, w.data));
      InsertSorted(r.buf, seg);
      var r2 := r.(acks := r.acks + [Ack(w.sn, w.ts)], buf := Insert(Exact, r.buf, seg));
      MoveReadyAdvances(r2, wnd, numbered);
      assert forall sn :: Received(r, sn) ==> Received(r2, sn);
    } else {
      assert r.queue == r.queue + numbered[r.nxt..r.nxt];
    }
  }

  lemma RcvStepOk(r: Receiver, wnd: nat, numbered: seq<Frag>, w: Wire)
    requires RcvOk(r, wnd) && RcvHist(r, numbered) && AcksTrue(r) && PushTrue(w, numbered)
    ensures var t := InputRcv(Exact, r, wnd, w);
            RcvOk(t, wnd) && RcvAdvance(r, t, numbered) && RcvHist(t, numbered) && AcksTrue(t)
  {
    if w.cmd == CMD_PUSH {
      PushGrows(r, wnd, w);
      PushAdvances(r, wnd, numbered, w);
    } else {
      assert r.queue == r.queue + numbered[r.nxt..r.nxt];
    }
  }

  lemma SndStepOk(s: Sender, wnd: nat, numbered: seq<Frag>, peer: Receiver, w: Wire)
    requires SndOk(s, wnd) && SndHist(s, numbered) && NoLoss(s, peer) && AckTrue(w, peer)
    ensures var t := InputSnd(Exact, s, w);
            && SndOk(t, wnd) && SndHist(t, numbered) && NoLoss(t, peer)
            && t.nxt == s.nxt && t.queue == s.queue && s.una <= t.una
  {
    UnaShrinks(s, wnd, w.una);
    var s1 := ShrinkBuf(s.(buf := ParseUna(Exact, s.buf, w.una)));
    assert NoLoss(s1, peer);
    if w.cmd == CMD_ACK {
      AckShrinks(s1, wnd, w.sn);
    }
  }

  // ---------------------------------------------------------- one datagram

  /** The parts of SysOk that one endpoint's input has to keep. */
  ghost predicate Keeps(p: Pcb, own: seq<Frag>, peers: seq<Frag>, peer: Receiver) {
    EndOk(p) && SndHist(p.snd, own) && RcvHist(p.rcv, peers) && AcksTrue(p.rcv) && NoLoss(p.snd, peer)
  }

  ghost predicate Advances(a: Pcb, b: Pcb, peers: seq<Frag>) {
    b.cfg == a.cfg && b.snd.nxt == a.snd.nxt && b.snd.queue == a.snd.queue && a.snd.una <= b.snd.una
    && RcvAdvance(a.rcv, b.rcv, peers)
  }

  lemma WireKeeps(c: InCtx, own: seq<Frag>, peers: seq<Frag>, peer: Receiver, w: Wire)
    requires Keeps(c.s, own, peers, peer) && PushTrue(w, peers) && AckTrue(w, peer)
    ensures var d := InputWire(Exact, c, w);
            Keeps(d.s, own, peers, peer) && Advances(c.s, d.s, peers)
  {
    SndStepOk(c.s.snd, c.s.cfg.sndWnd, own, peer, w);
    RcvStepOk(c.s.rcv, c.s.cfg.rcvWnd, peers, w);
  }

  lemma {:induction false} WiresKeep(c: InCtx, own: seq<Frag>, peers: seq<Frag>, peer: Receiver, ws: seq<Wire>)
    requires Keeps(c.s, own, peers, peer)
    requires forall w :: w in ws ==> PushTrue(w, peers) && AckTrue(w, peer)
    ensures var d := InputWires(Exact, c, ws);
            Keeps(d.s, own, peers, peer) && Advances(c.s, d.s, peers)
    decreases |ws|
  {
    if ws == [] {
      assert c.s.rcv.queue == c.s.rcv.queue + peers[c.s.rcv.nxt..c.s.rcv.nxt];
    } else {
      WireKeeps(c, own, peers, peer, ws[0]);
      var c1 := InputWire(Exact, c, ws[0]);
      WiresKeep(c1, own, peers, peer, ws[1..]);
      var d := InputWires(Exact, c1, ws[1..]);
      AdvanceTwice(c.s.rcv, c1.s.rcv, d.s.rcv, peers);
    }
  }

  lemma AdvanceTwice(a: Receiver, b: Receiver, c: Receiver, numbered: seq<Frag>)
    requires RcvAdvance(a, b, numbered) && RcvAdvance(b, c, numbered)
    ensures RcvAdvance(a, c, numbered)
  {
    assert numbered[a.nxt..b.nxt] + numbered[b.nxt..c.nxt] == numbered[a.nxt..c.nxt];
  }

  /** ikcp_parse_fastack changes no number and no fragment. */
  lemma FastackKeeps(s: Sender, wnd: nat, own: seq<Frag>, peer: Receiver, sn: int)
    requires SndOk(s, wnd) && SndHist(s, own) && NoLoss(s, peer)
    ensures var t := ParseFastack(Exact, s, sn);
            && SndOk(t, wnd) && SndHist(t, own) && NoLoss(t, peer)
            && t.una == s.una && t.nxt == s.nxt && t.queue == s.queue
  {
    CountSkippedKeeps(Exact, s.buf, sn);
    var t := ParseFastack(Exact, s, sn);
    SameSegsSame(s.buf, t.buf);
  }

  lemma SameSegsSame(a: seq<SndSeg>, b: seq<SndSeg>)
    requires SameSegs(b, a)
    ensures SndAscending(a) ==> SndAscending(b)
    ensures forall sn :: InSndBuf(a, sn) <==> InSndBuf(b, sn)
    ensures forall g :: g in b ==> exists h :: h in a && h.sn == g.sn && h.frag == g.frag
  {
    forall sn
      ensures InSndBuf(a, sn) <==> InSndBuf(b, sn)
    {
      if InSndBuf(a, sn) {
        var i :| 0 <= i < |a| && a[i].sn == sn;
        assert b[i] in b;
      }
      if InSndBuf(b, sn) {
        var i :| 0 <= i < |b| && b[i].sn == sn;
        assert a[i] in a;
      }
    }
    forall g | g in b
      ensures exists h :: h in a && h.sn == g.sn && h.frag == g.frag
    {
      var i :| 0 <= i < |b| && b[i] == g;
      assert a[i] in a;
    }
  }

  lemma InputKeeps(p: Pcb, own: seq<Frag>, peers: seq<Frag>, peer: Receiver, ws: seq<Wire>)
    requires Keeps(p, own, peers, peer)
    requires forall w :: w in ws ==> PushTrue(w, peers) && AckTrue(w, peer)
    ensures var q := Input(Exact, p, ws, true);
            Keeps(q, own, peers, peer) && Advances(p, q, peers)
  {
    WiresKeep(InCtx(p, false, 0), own, peers, peer, ws);
    var c := InputWires(Exact, InCtx(p, false, 0), ws);
    FastackKeeps(c.s.snd, c.s.cfg.sndWnd, own, peer, c.maxack);
  }

  // ------------------------------------------------------------- one flush

  /** The segments of snd_buf after the retransmission pass. */
  lemma TouchKeepsSegs(cfg: Config, current: int, rxRto: u32, buf: seq<SndSeg>)
    ensures SameSegs(TouchAll(Exact, cfg, current, rxRto, buf), buf)
  {
  }

  lemma {:induction false} PushWiresFrom(s: Pcb, buf: seq<SndSeg>, w: Wire)
    requires w in PushWires(Exact, s, buf)
    ensures exists g :: g in buf && w == PushWire(s, g)
  {
    if buf != [] {
      var n := |buf| - 1;
      if w in PushWires(Exact, s, buf[..n]) {
        PushWiresFrom(s, buf[..n], w);
        var g :| g in buf[..n] && w == PushWire(s, g);
        assert g in buf;
      } else {
        assert w == PushWire(s, buf[n]) && buf[n] in buf;
      }
    }
  }

  /** Numbering fragments extends the numbered sequence and loses nothing. */
  lemma AdmitKeeps(s: Sender, wnd: nat, window: nat, current: int, rto: u32, numbered: seq<Frag>, peer: Receiver)
    requires SndOk(s, wnd) && SndHist(s, numbered) && NoLoss(s, peer) && window <= wnd
    ensures var t := Admit(Exact, s, window, current, rto);
            && |t.queue| <= |s.queue| && SndOk(t, wnd)
            && SndHist(t, numbered + s.queue[..|s.queue| - |t.queue|]) && NoLoss(t, peer)
            && s.una == t.una && t.queue == s.queue[|s.queue| - |t.queue|..]
  {
    var k := AdmitNumbers(s, window, current, rto);
    var t := Admit(Exact, s, window, current, rto);
    var added := Number(s.nxt, s.queue[..k], current, rto);
    assert t.buf == s.buf + added;
    forall sn | s.nxt <= sn < t.nxt
      ensures InSndBuf(t.buf, sn)
    {
      assert added[sn - s.nxt] in added;
    }
    forall g | g in added
      ensures s.nxt <= g.sn < t.nxt && g.frag == (numbered + s.queue[..k])[g.sn]
    {
      var i :| 0 <= i < |added| && added[i] == g;
    }
    assert forall sn :: InSndBuf(s.buf, sn) ==> InSndBuf(t.buf, sn);
  }

  lemma TouchKeeps(s: Sender, wnd: nat, cfg: Config, current: int, rxRto: u32, numbered: seq<Frag>, peer: Receiver)
    requires SndOk(s, wnd) && SndHist(s, numbered) && NoLoss(s, peer)
    ensures var t := s.(buf := TouchAll(Exact, cfg, current, rxRto, s.buf));
            SndOk(t, wnd) && SndHist(t, numbered) && NoLoss(t, peer)
  {
    TouchKeepsSegs(cfg, current, rxRto, s.buf);
    SameSegsSame(s.buf, TouchAll(Exact, cfg, current, rxRto, s.buf));
  }

  /** What a flush leaves behind and what it emits. */
  ghost predicate FlushOk(p: Pcb, f: Flushed, own: seq<Frag>, peers: seq<Frag>, peer: Receiver) {
    && |f.s.snd.queue| <= |p.snd.queue|
    && var taken := |p.snd.queue| - |f.s.snd.queue|;
       var own' := own + p.snd.queue[..taken];
       && f.s.snd.queue == p.snd.queue[taken..]
       && Keeps(f.s, own', peers, peer)
       && f.s.rcv.(acks := []) == p.rcv.(acks := []) && f.s.cfg == p.cfg && f.s.snd.una == p.snd.una
       && (forall w :: w in f.wires ==> PushTrue(w, own') && AckTrue(w, p.rcv))
  }

  lemma ControlWiresTrue(p: Pcb, pr: Probe, own: seq<Frag>)
    requires AcksTrue(p.rcv) && 0 <= p.rcv.nxt
    ensures forall w :: w in AckWires(p) + ProbeWires(p, pr) ==> PushTrue(w, own) && AckTrue(w, p.rcv)
  {
    forall w | w in AckWires(p)
      ensures AckTrue(w, p.rcv) && PushTrue(w, own)
    {
      var i :| 0 <= i < |p.rcv.acks| && AckWires(p)[i] == w;
      assert p.rcv.acks[i] in p.rcv.acks;
    }
  }

  lemma PushWiresTrue(p: Pcb, buf: seq<SndSeg>, own: seq<Frag>)
    requires 0 <= p.rcv.nxt && forall g :: g in buf ==> 0 <= g.sn < |own| && g.frag == own[g.sn]
    ensures forall w :: w in PushWires(Exact, p, buf) ==> PushTrue(w, own) && AckTrue(w, p.rcv)
  {
    forall w | w in PushWires(Exact, p, buf)
      ensures PushTrue(w, own) && AckTrue(w, p.rcv)
    {
      PushWiresFrom(p, buf, w);
    }
  }

  lemma FlushStateKeeps(p: Pcb, snd: Sender, own: seq<Frag>, peers: seq<Frag>, peer: Receiver)
    requires EndOk(p) && RcvHist(p.rcv, peers) && AcksTrue(p.rcv)
    requires SndOk(snd, p.cfg.sndWnd) && SndHist(snd, own) && NoLoss(snd, peer)
    ensures Keeps(FlushState(Exact, p, snd), own, peers, peer)
  {
    TouchKeeps(snd, p.cfg.sndWnd, p.cfg, p.clock.current, p.rtt.rto, own, peer);
  }

  lemma FlushWiresTrue(p: Pcb, snd: Sender, own: seq<Frag>)
    requires AcksTrue(p.rcv) && 0 <= p.rcv.nxt && SndHist(snd, own)
    ensures forall w :: w in FlushWires(Exact, p, snd) ==> PushTrue(w, own) && AckTrue(w, p.rcv)
  {
    PushWiresTrue(p, snd.buf, own);
    ControlWiresTrue(p, ProbeTimer(Exact, p.probe, p.cong.rmtWnd, p.clock.current), own);
  }

  lemma FlushKeeps(p: Pcb, own: seq<Frag>, peers: seq<Frag>, peer: Receiver)
    requires Keeps(p, own, peers, peer)
    ensures FlushOk(p, Flush(Exact, p), own, peers, peer)
  {
    if p.cfg.copy.Extended? && !p.clock.updated {
      assert own + p.snd.queue[..0] == own;
    } else {
      var snd := Admitted(Exact, p);
      AdmitKeeps(p.snd, p.cfg.sndWnd, SendWindow(p), p.clock.current, p.rtt.rto, own, peer);
      var own' := own + p.snd.queue[..|p.snd.queue| - |snd.queue|];
      FlushStateKeeps(p, snd, own', peers, peer);
      FlushWiresTrue(p, snd, own');
    }
  }

  // ------------------------------------------------------------ the system

  ghost predicate Pair(self: Half, peer: Half) {
    EndOk(self.p) && EndOk(peer.p) && Dir(self, peer) && Dir(peer, self)
  }

  lemma AcksStayTrue(net: seq<Datagram>, a: Receiver, b: Receiver)
    requires AllAcksTrue(net, a) && a.nxt <= b.nxt && forall sn :: Received(a, sn) ==> Received(b, sn)
    ensures AllAcksTrue(net, b)
  {
  }

  lemma PushesStayTrue(net: seq<Datagram>, numbered: seq<Frag>, more: seq<Frag>)
    requires PushesTrue(net, numbered)
    ensures PushesTrue(net, numbered + more)
  {
  }

  /** Advancing the receive side of self keeps both directions. */
  lemma AdvanceKeepsPair(self: Half, peer: Half, p: Pcb, arrived: seq<Frag>)
    requires Pair(self, peer)
    requires Keeps(p, self.numbered, peer.numbered, peer.p.rcv)
    requires self.p.rcv.nxt <= p.rcv.nxt && forall sn :: Received(self.p.rcv, sn) ==> Received(p.rcv, sn)
    requires p.snd.nxt == self.p.snd.nxt
    requires arrived == peer.numbered[..p.rcv.nxt]
    ensures Pair(self.(p := p, arrived := arrived), peer)
  {
    AcksStayTrue(self.net, self.p.rcv, p.rcv);
  }

  lemma InputKeepsPair(self: Half, peer: Half, d: Datagram)
    requires Pair(self, peer) && d in peer.net
    ensures Pair(InputStep(Exact, self, d), peer)
  {
    InputKeeps(self.p, self.numbered, peer.numbered, peer.p.rcv, d);
    var p := Input(Exact, self.p, d, true);
    var a, b := self.p.rcv, p.rcv;
    assert b.queue[|a.queue|..] == peer.numbered[a.nxt..b.nxt];
    assert peer.numbered[..a.nxt] + peer.numbered[a.nxt..b.nxt] == peer.numbered[..b.nxt];
    AdvanceKeepsPair(self, peer, p, InputStep(Exact, self, d).arrived);
  }

  lemma RecvAdvances(r: Receiver, wnd: nat, len: int, numbered: seq<Frag>)
    requires RcvOk(r, wnd) && RcvHist(r, numbered) && AcksTrue(r)
    ensures var v := Recv(Exact, r, wnd, len);
            var drop := if v.ret >= 0 && len >= 0 then HeadCount(r.queue) else 0;
            && RcvOk(v.rcv, wnd) && RcvHist(v.rcv, numbered) && AcksTrue(v.rcv)
            && RcvAdvance(r.(queue := r.queue[drop..]), v.rcv, numbered)
  {
    var v := Recv(Exact, r, wnd, len);
    var drop := if v.ret >= 0 && len >= 0 then HeadCount(r.queue) else 0;
    var r1 := r.(queue := r.queue[drop..]);
    assert r.queue[0..] == r.queue;
    assert r1.queue == r1.queue + numbered[r.nxt..r.nxt];
    MoveReadyAdvances(r1, wnd, numbered);
  }

  lemma RecvKeepsPair(self: Half, peer: Half, len: int)
    requires Pair(self, peer)
    ensures Pair(RecvStep(Exact, self, len), peer)
  {
    var h := RecvStep(Exact, self, len);
    RecvAdvances(self.p.rcv, self.p.cfg.rcvWnd, len, peer.numbered);
    var a, b := self.p.rcv, h.p.rcv;
    assert h.arrived == self.arrived + peer.numbered[a.nxt..b.nxt];
    assert peer.numbered[..a.nxt] + peer.numbered[a.nxt..b.nxt] == peer.numbered[..b.nxt];
    AdvanceKeepsPair(self, peer, h.p, h.arrived);
  }

  /** Emitting true segments keeps both directions. */
  lemma EmitKeepsPair(self: Half, peer: Half, f: Flushed)
    requires Pair(self, peer) && FlushOk(self.p, f, self.numbered, peer.numbered, peer.p.rcv)
    ensures Pair(EmitStep(self, f), peer)
  {
    var h := EmitStep(self, f);
    var taken := |self.p.snd.queue| - |f.s.snd.queue|;
    var ds := Pack(self.p.cfg.mtu, f.wires);
    PackMembers(self.p.cfg.mtu, f.wires);
    PushesStayTrue(self.net, self.numbered, self.p.snd.queue[..taken]);
    assert forall sn :: Received(self.p.rcv, sn) <==> Received(h.p.rcv, sn);
    assert forall w :: AckTrue(w, self.p.rcv) <==> AckTrue(w, h.p.rcv);
    assert forall d :: d in h.net <==> d in self.net || d in ds;
  }

  lemma PackMembers(mtu: nat, ws: seq<Wire>)
    ensures forall d, w :: d in Pack(mtu, ws) && w in d ==> w in ws
  {
    PackLossless(mtu, ws);
    forall d, w | d in Pack(mtu, ws) && w in d
      ensures w in ws
    {
      JoinedMembers(Pack(mtu, ws), w);
    }
  }

  lemma UpdateOk(p: Pcb, now: int, own: seq<Frag>, peers: seq<Frag>, peer: Receiver)
    requires Keeps(p, own, peers, peer)
    ensures FlushOk(p, Update(Exact, p, now), own, peers, peer)
  {
    hide Tick, Flush;
    if FlushDue(Exact, p, now) {
      FlushKeeps(Ticked(Exact, p, now), own, peers, peer);
    } else {
      assert own + p.snd.queue[..0] == own;
    }
  }

  lemma StepKeepsPair(self: Half, peer: Half, act: Action)
    requires Pair(self, peer)
    ensures Pair(HalfStep(Exact, self, peer.net, act), peer)
  {
    match act
    case DoSend(msg) =>
    case DoRecv(len) => RecvKeepsPair(self, peer, len);
    case DoUpdate(now) =>
      UpdateOk(self.p, now, self.numbered, peer.numbered, peer.p.rcv);
      EmitKeepsPair(self, peer, Update(Exact, self.p, now));
    case DoFlush =>
      FlushKeeps(self.p, self.numbered, peer.numbered, peer.p.rcv);
      EmitKeepsPair(self, peer, Flush(Exact, self.p));
    case Deliver(k) =>
      if k < |peer.net| {
        InputKeepsPair(self, peer, peer.net[k]);
      }
  }

  /** The invariant holds in every state of every run. */
  lemma {:induction false} RunOk(cfgA: Config, cfgB: Config, events: seq<Event>)
    requires ValidConfig(cfgA) && ValidConfig(cfgB)
    ensures SysOk(Run(Exact, cfgA, cfgB, events))
  {
    if events != [] {
      var n := |events| - 1;
      RunOk(cfgA, cfgB, events[..n]);
      var s := Run(Exact, cfgA, cfgB, events[..n]);
      if events[n].atA {
        StepKeepsPair(s.a, s.b, events[n].act);
      } else {
        StepKeepsPair(s.b, s.a, events[n].act);
      }
    }
  }

  /** Safety: in every run, what was ever moved to the receive queue is the first
      rcv_nxt fragments the peer numbered: in order, exactly once, unaltered. */
  lemma InOrderExactlyOnce(cfgA: Config, cfgB: Config, events: seq<Event>)
    requires ValidConfig(cfgA) && ValidConfig(cfgB)
    ensures var s := Run(Exact, cfgA, cfgB, events);
            && 0 <= s.b.p.rcv.nxt <= |s.a.numbered| && s.b.arrived == s.a.numbered[..s.b.p.rcv.nxt]
            && 0 <= s.a.p.rcv.nxt <= |s.b.numbered| && s.a.arrived == s.b.numbered[..s.a.p.rcv.nxt]
  {
    RunOk(cfgA, cfgB, events);
  }

  /** No segment is forgotten: in every run each number given out is still in the
      sender's snd_buf, or in the peer's rcv_buf, or below the peer's rcv_nxt. */
  lemma NothingForgotten(cfgA: Config, cfgB: Config, events: seq<Event>, sn: nat)
    requires ValidConfig(cfgA) && ValidConfig(cfgB)
    ensures var s := Run(Exact, cfgA, cfgB, events);
            && (sn < s.a.p.snd.nxt ==>
                  InSndBuf(s.a.p.snd.buf, sn) || InRcvBuf(s.b.p.rcv.buf, sn) || sn < s.b.p.rcv.nxt)
            && (sn < s.b.p.snd.nxt ==>
                  InSndBuf(s.b.p.snd.buf, sn) || InRcvBuf(s.a.p.rcv.buf, sn) || sn < s.a.p.rcv.nxt)
  {
    RunOk(cfgA, cfgB, events);
  }
}
