/** One full exchange makes progress: what one flush sent and the peer's window
    admits is gone from snd_buf once the peer's next flush has come back. */
module Progress {
  import opened Serial
  import opened KcpTypes
  import opened KcpSpec
  import opened Packing
  import opened Endpoint
  import opened System
  import opened Delivery

  /** The state in which a call's flush starts: ikcp_update has moved the clock. */
  function Before(h: Half, act: Action): Pcb {
    if act.DoUpdate? then Ticked(Exact, h.p, act.now) else h.p
  }

  /** The call makes ikcp_flush run to its end: ikcp_flush itself, or an ikcp_update that
      is due; the second copy waits for the first ikcp_update. */
  predicate Flushes(h: Half, act: Action) {
    match act
    case DoFlush => h.p.cfg.copy.Basic? || h.p.clock.updated
    case DoUpdate(now) => FlushDue(Exact, h.p, now)
    case _ => false
  }

  /** The segments a flushing call encodes. */
  function Emission(h: Half, act: Action): seq<Wire> {
    if Flushes(h, act) then Flush(Exact, Before(h, act)).wires else []
  }

  lemma FlushingStep(self: Half, peerNet: seq<Datagram>, act: Action)
    requires self.p.cfg.mss > 0 && Flushes(self, act)
    ensures HalfStep(Exact, self, peerNet, act) == EmitStep(self, Flush(Exact, Before(self, act)))
    ensures var p := Before(self, act);
            (p.cfg.copy.Basic? || p.clock.updated) && p.snd == self.p.snd && p.rcv == self.p.rcv && p.cfg == self.p.cfg
  {
  }

  ghost predicate AckPending(r: Receiver, sn: int) {
    exists a :: a in r.acks && a.sn == sn
  }

  ghost predicate PushIn(d: Datagram, sn: int) {
    exists w :: w in d && w.cmd == CMD_PUSH && w.sn == sn
  }

  ghost predicate AckIn(d: Datagram, sn: int) {
    exists w :: w in d && w.cmd == CMD_ACK && w.sn == sn
  }

  // --------------------------------------------------- the receiving endpoint

  lemma {:induction false} InputAcks(c: InCtx, ws: seq<Wire>)
    requires EndOk(c.s)
    ensures var d := InputWires(Exact, c, ws);
            && EndOk(d.s) && d.s.cfg == c.s.cfg && c.s.rcv.nxt <= d.s.rcv.nxt && c.s.rcv.acks <= d.s.rcv.acks
            && forall w :: w in ws && w.cmd == CMD_PUSH && w.sn < c.s.rcv.nxt + c.s.cfg.rcvWnd ==> AckPending(d.s.rcv, w.sn)
    decreases |ws|
  {
    if ws != [] {
      var c1 := InputWire(Exact, c, ws[0]);
      WireAcks(c, ws[0]);
      InputAcks(c1, ws[1..]);
      var d := InputWires(Exact, c1, ws[1..]);
      assert forall sn :: AckPending(c1.s.rcv, sn) ==> AckPending(d.s.rcv, sn);
      assert ws == [ws[0]] + ws[1..];
    }
  }

  lemma WireAcks(c: InCtx, w: Wire)
    requires EndOk(c.s)
    ensures var d := InputWire(Exact, c, w);
            && EndOk(d.s) && d.s.cfg == c.s.cfg && c.s.rcv.nxt <= d.s.rcv.nxt && c.s.rcv.acks <= d.s.rcv.acks
            && (w.cmd == CMD_PUSH && w.sn < c.s.rcv.nxt + c.s.cfg.rcvWnd ==> AckPending(d.s.rcv, w.sn))
  {
    UnaShrinks(c.s.snd, c.s.cfg.sndWnd, w.una);
    if w.cmd == CMD_ACK {
      AckShrinks(ShrinkBuf(c.s.snd.(buf := ParseUna(Exact, c.s.snd.buf, w.una))), c.s.cfg.sndWnd, w.sn);
    }
    if w.cmd == CMD_PUSH {
      PushGrows(c.s.rcv, c.s.cfg.rcvWnd, w);
      if w.sn < c.s.rcv.nxt + c.s.cfg.rcvWnd {
        var acks := c.s.rcv.acks + [Ack(w.sn, w.ts)];
        assert acks[|acks| - 1] in acks;
      }
    }
  }

  /** Without a flush of its own, an endpoint forgets no pending ack, and a delivered
      push inside the window is acked.  An ikcp_update that is not due is no flush. */
  lemma PendingStays(self: Half, peer: Half, act: Action)
    requires Pair(self, peer) && !Flushes(self, act)
    ensures var h := HalfStep(Exact, self, peer.net, act);
            && self.p.rcv.nxt <= h.p.rcv.nxt && self.p.rcv.acks <= h.p.rcv.acks
            && (act.Deliver? && act.k < |peer.net| ==>
                  forall sn :: PushIn(peer.net[act.k], sn) && sn < self.p.rcv.nxt + self.p.cfg.rcvWnd ==> AckPending(h.p.rcv, sn))
  {
    match act
    case DoSend(msg) =>
    case DoUpdate(now) =>
    case DoFlush =>
    case DoRecv(len) =>
      RecvAdvances(self.p.rcv, self.p.cfg.rcvWnd, len, peer.numbered);
      RecvAcks(self.p.rcv, self.p.cfg.rcvWnd, len);
    case Deliver(k) =>
      if k < |peer.net| {
        InputAcks(InCtx(self.p, false, 0), peer.net[k]);
      }
  }

  lemma RecvAcks(r: Receiver, wnd: nat, len: int)
    ensures Recv(Exact, r, wnd, len).rcv.acks == r.acks
  {
    var k := MoveReadyMoves(r, wnd);
    var j := MoveReadyMoves(r.(queue := r.queue[HeadCount(r.queue)..]), wnd);
  }

  lemma StepNet(self: Half, peer: Half, act: Action)
    requires Pair(self, peer)
    ensures var h := HalfStep(Exact, self, peer.net, act);
            Pair(h, peer) && self.net <= h.net
  {
    StepKeepsPair(self, peer, act);
  }

  lemma {:induction false} NetGrows(s: Sys, events: seq<Event>)
    requires SysOk(s)
    ensures var t := Steps(Exact, s, events);
            SysOk(t) && s.a.net <= t.a.net && s.b.net <= t.b.net
  {
    if events != [] {
      var n := |events| - 1;
      NetGrows(s, events[..n]);
      var t := Steps(Exact, s, events[..n]);
      if events[n].atA {
        StepNet(t.a, t.b, events[n].act);
      } else {
        StepNet(t.b, t.a, events[n].act);
      }
    }
  }

  /** The endpoint on that side does not flush during these events. */
  ghost predicate Quiet(s: Sys, events: seq<Event>, atA: bool)
    requires s.a.p.cfg.mss > 0 && s.b.p.cfg.mss > 0
  {
    events == [] ||
    var n := |events| - 1;
    && Quiet(s, events[..n], atA)
    && (events[n].atA == atA ==> !Flushes(Side(Steps(Exact, s, events[..n]), atA), events[n].act))
  }

  /** While the receiving side does not flush, every push delivered inside its window is
      acked. */
  lemma {:induction false} DeliveredIsPending(s: Sys, events: seq<Event>, fromA: bool, k: nat, sn: int)
    requires SysOk(s) && Quiet(s, events, !fromA)
    requires k < |Side(s, fromA).net| && PushIn(Side(s, fromA).net[k], sn)
    requires var r := Side(s, !fromA); sn < r.p.rcv.nxt + r.p.cfg.rcvWnd
    ensures var r := Side(Steps(Exact, s, events), !fromA);
            && Side(s, !fromA).p.rcv.nxt <= r.p.rcv.nxt
            && (Event(!fromA, Deliver(k)) in events ==> AckPending(r.p.rcv, sn))
  {
    if events != [] {
      var n := |events| - 1;
      var front, e := events[..n], events[n];
      assert events == front + [e];
      DeliveredIsPending(s, front, fromA, k, sn);
      NetGrows(s, front);
      var t := Steps(Exact, s, front);
      assert Side(t, fromA).net[k] == Side(s, fromA).net[k];
      if e.atA != fromA {
        PendingStays(Side(t, !fromA), Side(t, fromA), e.act);
      }
    }
  }

  // ------------------------------------------------------ the sending endpoint

  /** Segment sn has been numbered and is no longer in snd_buf. */
  ghost predicate Gone(s: Sender, sn: int) {
    sn < s.nxt && !InSndBuf(s.buf, sn)
  }

  lemma WireGone(c: InCtx, w: Wire, sn: int)
    requires EndOk(c.s) && sn < c.s.snd.nxt
    ensures var d := InputWire(Exact, c, w);
            && EndOk(d.s) && d.s.snd.nxt == c.s.snd.nxt
            && (Gone(c.s.snd, sn) || (w.cmd == CMD_ACK && w.sn == sn) ==> Gone(d.s.snd, sn))
  {
    WireAcks(c, w);
    UnaShrinks(c.s.snd, c.s.cfg.sndWnd, w.una);
    if w.cmd == CMD_ACK {
      AckShrinks(ShrinkBuf(c.s.snd.(buf := ParseUna(Exact, c.s.snd.buf, w.una))), c.s.cfg.sndWnd, w.sn);
    }
  }

  lemma {:induction false} WiresGone(c: InCtx, ws: seq<Wire>, sn: int)
    requires EndOk(c.s) && sn < c.s.snd.nxt
    ensures Gone(c.s.snd, sn) || AckIn(ws, sn) ==> Gone(InputWires(Exact, c, ws).s.snd, sn)
    decreases |ws|
  {
    if ws != [] {
      WireGone(c, ws[0], sn);
      WiresGone(InputWire(Exact, c, ws[0]), ws[1..], sn);
      assert ws == [ws[0]] + ws[1..];
    }
  }

  /** Nothing puts a segment back into snd_buf, and its ack takes it out. */
  lemma StaysGone(self: Half, peer: Half, act: Action, sn: int)
    requires Pair(self, peer) && sn < self.p.snd.nxt
    ensures var h := HalfStep(Exact, self, peer.net, act);
            && sn < h.p.snd.nxt
            && (Gone(self.p.snd, sn) || (act.Deliver? && act.k < |peer.net| && AckIn(peer.net[act.k], sn))
                ==> Gone(h.p.snd, sn))
  {
    match act
    case DoSend(msg) =>
    case DoRecv(len) =>
    case DoUpdate(now) => FlushGone(Ticked(Exact, self.p, now), sn);
    case DoFlush => FlushGone(self.p, sn);
    case Deliver(k) =>
      if k < |peer.net| {
        var c0 := InCtx(self.p, false, 0);
        InputKeeps(self.p, self.numbered, peer.numbered, peer.p.rcv, peer.net[k]);
        WiresGone(c0, peer.net[k], sn);
        var c := InputWires(Exact, c0, peer.net[k]);
        CountSkippedKeeps(Exact, c.s.snd.buf, c.maxack);
        SameSegsSame(c.s.snd.buf, CountSkipped(Exact, c.s.snd.buf, c.maxack));
      }
  }

  lemma FlushGone(p: Pcb, sn: int)
    requires EndOk(p) && sn < p.snd.nxt
    ensures sn < Flush(Exact, p).s.snd.nxt
    ensures Gone(p.snd, sn) ==> Gone(Flush(Exact, p).s.snd, sn)
  {
    var current, rto := p.clock.current, p.rtt.rto;
    var k := AdmitNumbers(p.snd, SendWindow(p), current, rto);
    var s := Admitted(Exact, p);
    var added := Number(p.snd.nxt, p.snd.queue[..k], current, rto);
    assert s.buf == p.snd.buf + added;
    assert forall g :: g in added ==> g.sn >= p.snd.nxt;
    SameSegsSame(s.buf, TouchAll(Exact, p.cfg, current, rto, s.buf));
  }

  lemma {:induction false} AckedIsGone(s: Sys, events: seq<Event>, atA: bool, k: nat, sn: int)
    requires SysOk(s) && k < |Side(s, !atA).net| && AckIn(Side(s, !atA).net[k], sn) && sn < Side(s, atA).p.snd.nxt
    ensures var h := Side(Steps(Exact, s, events), atA);
            && sn < h.p.snd.nxt
            && (Event(atA, Deliver(k)) in events ==> Gone(h.p.snd, sn))
  {
    if events != [] {
      var n := |events| - 1;
      var front, e := events[..n], events[n];
      assert events == front + [e];
      AckedIsGone(s, front, atA, k, sn);
      NetGrows(s, front);
      var t := Steps(Exact, s, front);
      assert Side(t, !atA).net[k] == Side(s, !atA).net[k];
      if e.atA == atA {
        StaysGone(Side(t, atA), Side(t, !atA), e.act, sn);
      }
    }
  }

  // ---------------------------------------------------------------- the exchange

  /** A flushing call puts every segment it encodes into a datagram. */
  lemma FlushEmits(h: Half, peerNet: seq<Datagram>, act: Action, w: Wire) returns (k: nat)
    requires h.p.cfg.mss > 0 && w in Emission(h, act)
    ensures var t := HalfStep(Exact, h, peerNet, act);
            |h.net| <= k < |t.net| && w in t.net[k]
  {
    FlushingStep(h, peerNet, act);
    hide Flush, Before, Flushes, HalfStep, Pack;
    var i := WireIsPacked(h.p.cfg.mtu, Emission(h, act), w);
    k := |h.net| + i;
  }

  lemma WireIsPacked(mtu: nat, ws: seq<Wire>, w: Wire) returns (i: nat)
    requires w in ws
    ensures i < |Pack(mtu, ws)| && w in Pack(mtu, ws)[i]
  {
    var ds := Pack(mtu, ws);
    PackLossless(mtu, ws);
    JoinedMembers(ds, w);
    var d :| d in ds && w in d;
    i :| 0 <= i < |ds| && ds[i] == d;
  }

  lemma PendingIsFlushed(p: Pcb, sn: int) returns (w: Wire)
    requires AckPending(p.rcv, sn) && (p.cfg.copy.Basic? || p.clock.updated)
    ensures w in Flush(Exact, p).wires && w.cmd == CMD_ACK && w.sn == sn && w.una == p.rcv.nxt
  {
    var a :| a in p.rcv.acks && a.sn == sn;
    var i :| 0 <= i < |p.rcv.acks| && p.rcv.acks[i] == a;
    w := AckWires(p)[i];
    assert w in FlushWires(Exact, p, Admitted(Exact, p));
  }

  /** One call on one side. */
  function CallAt(s: Sys, atA: bool, act: Action): (t: Sys)
    requires s.a.p.cfg.mss > 0 && s.b.p.cfg.mss > 0
    ensures t.a.p.cfg == s.a.p.cfg && t.b.p.cfg == s.b.p.cfg
  {
    StepKeepsConfig(Exact, s.a, s.b.net, act);
    StepKeepsConfig(Exact, s.b, s.a.net, act);
    SysStep(Exact, s, Event(atA, act))
  }

  /** A segment a flushing call transmits is in a datagram that call emits. */
  lemma PushLeaves(s: Sys, atA: bool, act: Action, w: Wire) returns (k: nat)
    requires SysOk(s) && w in Emission(Side(s, atA), act) && w.cmd == CMD_PUSH
    ensures var t := CallAt(s, atA, act);
            && SysOk(t) && Side(t, !atA) == Side(s, !atA)
            && |Side(s, atA).net| <= k < |Side(t, atA).net| && w in Side(t, atA).net[k] && PushIn(Side(t, atA).net[k], w.sn)
  {
    StepNet(Side(s, atA), Side(s, !atA), act);
    k := FlushEmits(Side(s, atA), Side(s, !atA).net, act, w);
  }

  /** A pending ack is in a datagram the next flushing call emits, in a segment that
      carries the rcv_nxt of that moment as its una. */
  lemma AckLeaves(s: Sys, atA: bool, act: Action, sn: int) returns (k: nat, w: Wire)
    requires SysOk(s) && AckPending(Side(s, atA).p.rcv, sn) && Flushes(Side(s, atA), act)
    ensures var t := CallAt(s, atA, act);
            && SysOk(t) && Side(t, !atA) == Side(s, !atA) && |Side(s, atA).net| <= k < |Side(t, atA).net|
            && w in Side(t, atA).net[k] && w.cmd == CMD_ACK && w.sn == sn && w.una == Side(s, atA).p.rcv.nxt
  {
    var h := Side(s, atA);
    StepNet(h, Side(s, !atA), act);
    FlushingStep(h, Side(s, !atA).net, act);
    w := PendingIsFlushed(Before(h, act), sn);
    k := FlushEmits(h, Side(s, !atA).net, act, w);
  }

  /** The datagrams side atA emits in the step from s to t all occur among events as
      deliveries to the other side. */
  predicate AllDelivered(s: Sys, t: Sys, atA: bool, events: seq<Event>) {
    forall k :: |Side(s, atA).net| <= k < |Side(t, atA).net| ==> Event(!atA, Deliver(k)) in events
  }

  /** One side makes a flushing call; then, among any other events (out) but without the
      other side flushing, all datagrams of that flush reach the other side; it makes a
      flushing call; then, among any other events (back), all datagrams of that flush
      come back.  In whatever order they arrived, every segment of the first flush inside
      the receiver's window has left snd_buf. */
  lemma ExchangeProgresses(s0: Sys, atA: bool, flush: Action, out: seq<Event>, reply: Action, back: seq<Event>, w: Wire)
    requires SysOk(s0) && w in Emission(Side(s0, atA), flush) && w.cmd == CMD_PUSH
    requires var r := Side(s0, !atA); w.sn < r.p.rcv.nxt + r.p.cfg.rcvWnd
    requires var s1 := CallAt(s0, atA, flush);
             var s2 := Steps(Exact, s1, out);
             && Quiet(s1, out, !atA) && AllDelivered(s0, s1, atA, out)
             && Flushes(Side(s2, !atA), reply) && AllDelivered(s2, CallAt(s2, !atA, reply), !atA, back)
    ensures var s2 := Steps(Exact, CallAt(s0, atA, flush), out);
            Gone(Side(Steps(Exact, CallAt(s2, !atA, reply), back), atA).p.snd, w.sn)
  {
    hide SysOk, Flushes, Emission, Quiet;
    Configured(s0);
    var s1 := CallAt(s0, atA, flush);
    var k := PushLeaves(s0, atA, flush, w);
    DeliveredIsPending(s1, out, atA, k, w.sn);
    NumberStays(s1, out, atA, k, w);
    var s2 := Steps(Exact, s1, out);
    var j, v := AckLeaves(s2, !atA, reply, w.sn);
    AckedIsGone(CallAt(s2, !atA, reply), back, atA, j, w.sn);
  }

  lemma Configured(s: Sys)
    requires SysOk(s)
    ensures s.a.p.cfg.mss > 0 && s.b.p.cfg.mss > 0
  {
  }

  lemma NumberStays(s: Sys, events: seq<Event>, atA: bool, k: nat, w: Wire)
    requires SysOk(s) && k < |Side(s, atA).net| && w in Side(s, atA).net[k] && w.cmd == CMD_PUSH
    ensures var t := Steps(Exact, s, events);
            SysOk(t) && w.sn < Side(t, atA).p.snd.nxt
  {
    NetGrows(s, events);
    var t := Steps(Exact, s, events);
    var h := Side(t, atA);
    assert h.net[k] == Side(s, atA).net[k] && h.net[k] in h.net;
    assert PushTrue(w, h.numbered);
  }
}
