/** The machine on wrapping 32-bit numbers computes what the Exact machine
    computes, modulo 2^32, as long as compared numbers are less than 2^31 apart. */
module Refinement {
  import opened Serial
  import opened KcpTypes
  import opened KcpSpec
  import opened Endpoint

  function WrapSeg(g: SndSeg): SndSeg {
    g.(sn := Wrap32(g.sn))
  }

  function WrapSegs(buf: seq<SndSeg>): (r: seq<SndSeg>)
    ensures |r| == |buf|
  {
    seq(|buf|, i requires 0 <= i < |buf| => WrapSeg(buf[i]))
  }

  function WrapRcvSeg(g: RcvSeg): RcvSeg {
    g.(sn := Wrap32(g.sn))
  }

  function WrapRcvSegs(buf: seq<RcvSeg>): (r: seq<RcvSeg>)
    ensures |r| == |buf|
  {
    seq(|buf|, i requires 0 <= i < |buf| => WrapRcvSeg(buf[i]))
  }

  function WrapAck(a: Ack): Ack {
    a.(sn := Wrap32(a.sn))
  }

  function WrapAcks(acks: seq<Ack>): (r: seq<Ack>)
    ensures |r| == |acks|
  {
    seq(|acks|, i requires 0 <= i < |acks| => WrapAck(acks[i]))
  }

  function WrapWire(w: Wire): Wire {
    w.(sn := Wrap32(w.sn), una := Wrap32(w.una))
  }

  function WrapWires(ws: seq<Wire>): (r: seq<Wire>)
    ensures |r| == |ws|
  {
    seq(|ws|, i requires 0 <= i < |ws| => WrapWire(ws[i]))
  }

  function WrapSnd(s: Sender): Sender {
    Sender(Wrap32(s.una), Wrap32(s.nxt), s.queue, WrapSegs(s.buf))
  }

  function WrapRcv(r: Receiver): Receiver {
    Receiver(Wrap32(r.nxt), WrapRcvSegs(r.buf), r.queue, WrapAcks(r.acks))
  }

  function WrapPcb(p: Pcb): Pcb {
    p.(snd := WrapSnd(p.snd), rcv := WrapRcv(p.rcv))
  }

  predicate Near(x: int, reference: int) {
    -0x8000_0000 <= x - reference < 0x8000_0000
  }

  lemma NearDiff(x: int, y: int)
    requires Near(x, y)
    ensures Diff(Wrapping, Wrap32(x), Wrap32(y)) == Diff(Exact, x, y)
    ensures Wrap32(x) == Wrap32(y) <==> x == y
  {
    TimeDiffExact(x, y);
    TimeDiffWraps(x, y);
  }

  /** A window edge is computed on the wrapped base. */
  lemma EdgeDiff(x: int, base: int, wnd: nat)
    requires Near(x, base + wnd)
    ensures Norm(Wrapping, Wrap32(base) + wnd) == Wrap32(base + wnd)
    ensures Diff(Wrapping, Wrap32(x), Norm(Wrapping, Wrap32(base) + wnd)) == Diff(Exact, x, Norm(Exact, base + wnd))
  {
    WrapShift(base + wnd, Wrap32(base) + wnd, base / 0x1_0000_0000);
    NearDiff(x, base + wnd);
  }

  lemma NextWraps(x: int)
    ensures Norm(Wrapping, Wrap32(x) + 1) == Wrap32(x + 1)
  {
    WrapShift(x + 1, Wrap32(x) + 1, x / 0x1_0000_0000);
  }

  // ---------------------------------------------------------- the send side

  lemma WrapSegsCons(g: SndSeg, buf: seq<SndSeg>)
    ensures WrapSegs([g] + buf) == [WrapSeg(g)] + WrapSegs(buf)
  {
  }

  lemma WrapSegsTail(buf: seq<SndSeg>)
    requires buf != []
    ensures WrapSegs(buf[1..]) == WrapSegs(buf)[1..]
  {
  }

  lemma {:induction false} ParseUnaWraps(buf: seq<SndSeg>, una: int)
    requires forall g :: g in buf ==> Near(una, g.sn)
    ensures ParseUna(Wrapping, WrapSegs(buf), Wrap32(una)) == WrapSegs(ParseUna(Exact, buf, una))
  {
    if buf != [] {
      NearDiff(una, buf[0].sn);
      WrapSegsTail(buf);
      if una > buf[0].sn {
        ParseUnaWraps(buf[1..], una);
      }
    }
  }

  /** Comparing una with the head alone decides whether anything is dropped, so una
      only has to be near snd_una. */
  lemma UnaWraps(s: Sender, wnd: nat, una: int)
    requires SndOk(s, wnd) && wnd < HALF && Near(una, s.una)
    ensures ParseUna(Wrapping, WrapSegs(s.buf), Wrap32(una)) == WrapSegs(ParseUna(Exact, s.buf, una))
  {
    if s.buf != [] && una <= s.una {
      NearDiff(una, s.una);
    } else {
      ParseUnaWraps(s.buf, una);
    }
  }

  lemma ShrinkWraps(s: Sender)
    ensures ShrinkBuf(WrapSnd(s)) == WrapSnd(ShrinkBuf(s))
  {
  }

  lemma InFlightWraps(s: Sender, wnd: nat, sn: int)
    requires SndOk(s, wnd) && wnd < HALF && Near(sn, s.una)
    ensures InFlight(Wrapping, WrapSnd(s), Wrap32(sn)) <==> InFlight(Exact, s, sn)
    ensures InFlight(Exact, s, sn) ==> forall g :: g in s.buf ==> Near(sn, g.sn)
  {
    NearDiff(sn, s.una);
    if sn >= s.una {
      NearDiff(sn, s.nxt);
    }
  }

  lemma {:induction false} RemoveAckedWraps(buf: seq<SndSeg>, sn: int)
    requires forall g :: g in buf ==> Near(sn, g.sn)
    ensures RemoveAcked(Wrapping, WrapSegs(buf), Wrap32(sn)) == WrapSegs(RemoveAcked(Exact, buf, sn))
  {
    if buf != [] {
      NearDiff(sn, buf[0].sn);
      WrapSegsTail(buf);
      if sn > buf[0].sn {
        RemoveAckedWraps(buf[1..], sn);
        WrapSegsCons(buf[0], RemoveAcked(Exact, buf[1..], sn));
      }
    }
  }

  lemma {:induction false} CountSkippedWraps(buf: seq<SndSeg>, sn: int)
    requires forall g :: g in buf ==> Near(sn, g.sn)
    ensures CountSkipped(Wrapping, WrapSegs(buf), Wrap32(sn)) == WrapSegs(CountSkipped(Exact, buf, sn))
  {
    if buf != [] {
      NearDiff(sn, buf[0].sn);
      WrapSegsTail(buf);
      if sn >= buf[0].sn {
        CountSkippedWraps(buf[1..], sn);
        WrapSegsCons(buf[0], CountSkipped(Exact, buf[1..], sn));
        WrapSegsCons(buf[0].(fastack := Wrap32(buf[0].fastack + 1)), CountSkipped(Exact, buf[1..], sn));
      }
    }
  }

  lemma ParseAckWraps(s: Sender, wnd: nat, sn: int)
    requires SndOk(s, wnd) && wnd < HALF && Near(sn, s.una)
    ensures ParseAck(Wrapping, WrapSnd(s), Wrap32(sn)) == WrapSnd(ParseAck(Exact, s, sn))
  {
    InFlightWraps(s, wnd, sn);
    if InFlight(Exact, s, sn) {
      RemoveAckedWraps(s.buf, sn);
    }
  }

  lemma FastackWraps(s: Sender, wnd: nat, sn: int)
    requires SndOk(s, wnd) && wnd < HALF && Near(sn, s.una)
    ensures ParseFastack(Wrapping, WrapSnd(s), Wrap32(sn)) == WrapSnd(ParseFastack(Exact, s, sn))
  {
    InFlightWraps(s, wnd, sn);
    if InFlight(Exact, s, sn) {
      CountSkippedWraps(s.buf, sn);
    }
  }

  /** The send side after a segment's una has been processed. */
  function AfterUna(s: Sender, una: int): Sender {
    ShrinkBuf(s.(buf := ParseUna(Exact, s.buf, una)))
  }

  /** The send side of one incoming segment. */
  lemma InputSndWraps(s: Sender, wnd: nat, w: Wire)
    requires SndOk(s, wnd) && wnd < HALF && Near(w.una, s.una)
    requires w.cmd == CMD_ACK ==> Near(w.sn, AfterUna(s, w.una).una)
    ensures InputSnd(Wrapping, WrapSnd(s), WrapWire(w)) == WrapSnd(InputSnd(Exact, s, w))
  {
    UnaWraps(s, wnd, w.una);
    UnaShrinks(s, wnd, w.una);
    ShrinkWraps(s.(buf := ParseUna(Exact, s.buf, w.una)));
    var s1 := AfterUna(s, w.una);
    if w.cmd == CMD_ACK {
      ParseAckWraps(s1, wnd, w.sn);
      ShrinkWraps(ParseAck(Exact, s1, w.sn));
    }
  }

  lemma {:induction false} AdmitWraps(s: Sender, wnd: nat, window: nat, current: int, rto: u32)
    requires 0 <= s.nxt - s.una <= wnd && window <= wnd < HALF
    ensures Admit(Wrapping, WrapSnd(s), window, current, rto) == WrapSnd(Admit(Exact, s, window, current, rto))
    decreases |s.queue|
  {
    EdgeDiff(s.nxt, s.una, window);
    if s.nxt < s.una + window && s.queue != [] {
      NextWraps(s.nxt);
      var g := SndSeg(s.nxt, s.queue[0], current, rto, 0, 0);
      assert WrapSegs(s.buf + [g]) == WrapSegs(s.buf) + [WrapSeg(g)];
      AdmitWraps(s.(queue := s.queue[1..], nxt := s.nxt + 1, buf := s.buf + [g]), wnd, window, current, rto);
    }
  }

  // ------------------------------------------------------- the receive side

  lemma {:induction false} InsertWraps(buf: seq<RcvSeg>, seg: RcvSeg)
    requires forall g :: g in buf ==> Near(seg.sn, g.sn)
    ensures Insert(Wrapping, WrapRcvSegs(buf), WrapRcvSeg(seg)) == WrapRcvSegs(Insert(Exact, buf, seg))
  {
    if buf != [] {
      var n := |buf| - 1;
      NearDiff(seg.sn, buf[n].sn);
      assert WrapRcvSegs(buf[..n]) == WrapRcvSegs(buf)[..n];
      assert WrapRcvSegs(buf + [seg]) == WrapRcvSegs(buf) + [WrapRcvSeg(seg)];
      if seg.sn < buf[n].sn {
        InsertWraps(buf[..n], seg);
        var c := Insert(Exact, buf[..n], seg);
        assert WrapRcvSegs(c + [buf[n]]) == WrapRcvSegs(c) + [WrapRcvSeg(buf[n])];
      }
    }
  }

  lemma WrapRcvSegsTail(buf: seq<RcvSeg>)
    requires buf != []
    ensures WrapRcvSegs(buf[1..]) == WrapRcvSegs(buf)[1..]
  {
  }

  lemma HeadFollows(r: Receiver)
    requires (forall g :: g in r.buf ==> r.nxt <= g.sn < r.nxt + HALF) && RcvAscending(r.buf) && r.buf != []
    ensures Wrap32(r.buf[0].sn) == Wrap32(r.nxt) <==> r.buf[0].sn == r.nxt
    ensures r.buf[0].sn == r.nxt ==>
              RcvAscending(r.buf[1..]) && forall g :: g in r.buf[1..] ==> r.nxt + 1 <= g.sn < r.nxt + 1 + HALF
  {
    assert r.buf[0] in r.buf;
    NearDiff(r.buf[0].sn, r.nxt);
  }

  lemma {:induction false} MoveReadyWraps(r: Receiver, wnd: nat)
    requires forall g :: g in r.buf ==> r.nxt <= g.sn < r.nxt + HALF
    requires RcvAscending(r.buf)
    ensures MoveReady(Wrapping, WrapRcv(r), wnd) == WrapRcv(MoveReady(Exact, r, wnd))
    decreases |r.buf|
  {
    hide Wrap32, RcvAscending;
    if r.buf != [] {
      HeadFollows(r);
      if r.buf[0].sn == r.nxt && |r.queue| < wnd {
        NextWraps(r.nxt);
        WrapRcvSegsTail(r.buf);
        MoveReadyWraps(r.(buf := r.buf[1..], queue := r.queue + [r.buf[0].frag], nxt := r.nxt + 1), wnd);
      }
    }
  }

  /** The sorted insertion and the in-order move stay correct across the wrap. */
  lemma ParseDataWraps(r: Receiver, wnd: nat, seg: RcvSeg)
    requires RcvOk(r, wnd) && wnd < HALF && Near(seg.sn, r.nxt + wnd)
    ensures ParseData(Wrapping, WrapRcv(r), wnd, WrapRcvSeg(seg)) == WrapRcv(ParseData(Exact, r, wnd, seg))
  {
    EdgeDiff(seg.sn, r.nxt, wnd);
    if seg.sn < r.nxt + wnd {
      NearDiff(seg.sn, r.nxt);
      if seg.sn >= r.nxt {
        InsertWraps(r.buf, seg);
        InsertSorted(r.buf, seg);
        MoveReadyWraps(r.(buf := Insert(Exact, r.buf, seg)), wnd);
      }
    }
  }

  lemma InputRcvWraps(r: Receiver, wnd: nat, w: Wire)
    requires RcvOk(r, wnd) && wnd < HALF && (w.cmd == CMD_PUSH ==> Near(w.sn, r.nxt + wnd))
    ensures InputRcv(Wrapping, WrapRcv(r), wnd, WrapWire(w)) == WrapRcv(InputRcv(Exact, r, wnd, w))
  {
    if w.cmd == CMD_PUSH {
      EdgeDiff(w.sn, r.nxt, wnd);
      if w.sn < r.nxt + wnd {
        NearDiff(w.sn, r.nxt);
        var a := Ack(w.sn, w.ts);
        assert WrapAcks(r.acks + [a]) == WrapAcks(r.acks) + [WrapAck(a)];
        ParseDataWraps(r.(acks := r.acks + [a]), wnd, RcvSeg(w.sn, Frag(w.frg, w.data)));
      }
    }
  }

  lemma RecvWraps(r: Receiver, wnd: nat, len: int)
    requires RcvOk(r, wnd) && wnd < HALF
    ensures var v := Recv(Exact, r, wnd, len);
            Recv(Wrapping, WrapRcv(r), wnd, len) == v.(rcv := WrapRcv(v.rcv))
  {
    MoveReadyWraps(r, wnd);
    MoveReadyWraps(r.(queue := r.queue[HeadCount(r.queue)..]), wnd);
  }

  // ------------------------------------------------------------------ flush

  lemma {:induction false} PushWiresWrap(p: Pcb, buf: seq<SndSeg>)
    ensures PushWires(Wrapping, WrapPcb(p), WrapSegs(buf)) == WrapWires(PushWires(Exact, p, buf))
  {
    if buf != [] {
      var n := |buf| - 1;
      PushWiresWrap(p, buf[..n]);
      assert WrapSegs(buf[..n]) == WrapSegs(buf)[..n];
      WrapWiresAppend(PushWires(Exact, p, buf[..n]), [PushWire(p, buf[n])]);
    }
  }

  lemma WrapWiresAppend(a: seq<Wire>, b: seq<Wire>)
    ensures WrapWires(a + b) == WrapWires(a) + WrapWires(b)
  {
  }

  lemma AckWiresWrap(p: Pcb)
    ensures AckWires(WrapPcb(p)) == WrapWires(AckWires(p))
  {
    assert |AckWires(WrapPcb(p))| == |AckWires(p)|;
  }

  lemma ProbeWiresWrap(p: Pcb, probe: Probe)
    ensures ProbeWires(WrapPcb(p), probe) == WrapWires(ProbeWires(p, probe))
  {
    assert forall cmd: byte :: ProbeWire(WrapPcb(p), cmd) == WrapWire(ProbeWire(p, cmd));
  }

  lemma FlushWiresWrap(p: Pcb, snd: Sender)
    ensures FlushWires(Wrapping, WrapPcb(p), WrapSnd(snd)) == WrapWires(FlushWires(Exact, p, snd))
  {
    var probe := ProbeTimer(Exact, p.probe, p.cong.rmtWnd, p.clock.current);
    AckWiresWrap(p);
    ProbeWiresWrap(p, probe);
    PushWiresWrap(p, snd.buf);
    assert ProbeTimer(Wrapping, p.probe, p.cong.rmtWnd, p.clock.current) == probe;
    hide AckWires, ProbeWires, PushWires, ProbeTimer, WrapWires, WrapSegs, WrapRcv;
    WrapWiresAppend(AckWires(p), ProbeWires(p, probe));
    WrapWiresAppend(AckWires(p) + ProbeWires(p, probe), PushWires(Exact, p, snd.buf));
  }

  lemma FlushStateWraps(p: Pcb, snd: Sender)
    requires 0 <= snd.nxt - snd.una < HALF
    ensures FlushState(Wrapping, WrapPcb(p), WrapSnd(snd)) == WrapPcb(FlushState(Exact, p, snd))
  {
    TimeDiffWraps(snd.nxt, snd.una);
    WrapShift(snd.nxt - snd.una, Wrap32(snd.nxt) - Wrap32(snd.una), snd.nxt / 0x1_0000_0000 - snd.una / 0x1_0000_0000);
    VerdictsWrap(p.cfg, p.clock.current, snd.buf);
    assert TouchAll(Wrapping, p.cfg, p.clock.current, p.rtt.rto, WrapSegs(snd.buf))
        == WrapSegs(TouchAll(Exact, p.cfg, p.clock.current, p.rtt.rto, snd.buf));
    assert WrapAcks([]) == [];
  }

  /** What is retransmitted, and why, does not depend on the numbers. */
  lemma VerdictsWrap(cfg: Config, current: int, buf: seq<SndSeg>)
    ensures forall v :: HasVerdict(Wrapping, cfg, current, WrapSegs(buf), v) <==> HasVerdict(Exact, cfg, current, buf, v)
    ensures LinkDies(Wrapping, cfg, current, WrapSegs(buf)) <==> LinkDies(Exact, cfg, current, buf)
  {
    var c := WrapSegs(buf);
    assert forall i :: 0 <= i < |buf| ==> c[i] == WrapSeg(buf[i]) && Judge(Wrapping, cfg, current, c[i]) == Judge(Exact, cfg, current, buf[i]);
    forall v
      ensures HasVerdict(Wrapping, cfg, current, c, v) <==> HasVerdict(Exact, cfg, current, buf, v)
    {
      if HasVerdict(Exact, cfg, current, buf, v) {
        var i :| 0 <= i < |buf| && Judge(Exact, cfg, current, buf[i]) == v;
        assert Judge(Wrapping, cfg, current, c[i]) == v;
      }
    }
    if LinkDies(Exact, cfg, current, buf) {
      var i :| 0 <= i < |buf| && !Judge(Exact, cfg, current, buf[i]).Keep? && Wrap32(buf[i].xmit + 1) >= cfg.deadLink;
      assert !Judge(Wrapping, cfg, current, c[i]).Keep? && Wrap32(c[i].xmit + 1) >= cfg.deadLink;
    }
  }

  lemma FlushWraps(p: Pcb)
    requires EndOk(p)
    ensures var f := Flush(Exact, p);
            Flush(Wrapping, WrapPcb(p)) == Flushed(WrapPcb(f.s), WrapWires(f.wires))
  {
    if p.cfg.copy.Extended? && !p.clock.updated {
      assert WrapWires([]) == [];
    } else {
      var window := SendWindow(p);
      AdmitWraps(p.snd, p.cfg.sndWnd, window, p.clock.current, p.rtt.rto);
      var k := AdmitNumbers(p.snd, window, p.clock.current, p.rtt.rto);
      var snd := Admitted(Exact, p);
      FlushWiresWrap(p, snd);
      FlushStateWraps(p, snd);
    }
  }

  lemma UpdateWraps(p: Pcb, now: int)
    requires EndOk(p)
    ensures var f := Update(Exact, p, now);
            Update(Wrapping, WrapPcb(p), now) == Flushed(WrapPcb(f.s), WrapWires(f.wires))
  {
    assert Ticked(Wrapping, WrapPcb(p), now) == WrapPcb(Ticked(Exact, p, now));
    assert FlushDue(Wrapping, WrapPcb(p), now) == FlushDue(Exact, p, now);
    FlushWraps(Ticked(Exact, p, now));
    hide Ticked, FlushDue, Flush, WrapPcb;
    assert WrapWires([]) == [];
  }
}
