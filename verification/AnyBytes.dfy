/** One endpoint on 32-bit numbers, called in any order and fed any bytes at all:
    the shape of its queues survives. */
module AnyBytes {
  import opened Serial
  import opened KcpTypes
  import opened KcpSpec
  import opened Codec
  import opened Endpoint
  import opened Refinement

  predicate IsU32(x: int) {
    0 <= x < 0x1_0000_0000
  }

  /** The times that are put on the wire have 32 bits. */
  ghost predicate TimesFit(c: Pcb) {
    IsU32(c.clock.current) && forall a :: a in c.rcv.acks ==> IsU32(a.ts)
  }

  /** The state of the C code is that of an Exact endpoint, seen modulo 2^32. */
  ghost predicate U32Ok(c: Pcb) {
    TimesFit(c) && exists p :: EndOk(p) && c == WrapPcb(p)
  }

  /** Read the numbers of w as the unbounded numbers nearest to what they are
      compared with. */
  function LiftWire(p: Pcb, w: Wire): Wire {
    var una := Lift(w.una, p.snd.una);
    var sn := if w.cmd == CMD_ACK then Lift(w.sn, AfterUna(p.snd, una).una)
              else if w.cmd == CMD_PUSH then Lift(w.sn, p.rcv.nxt + p.cfg.rcvWnd)
              else w.sn;
    w.(una := una, sn := sn)
  }

  lemma ExactWireOk(p: Pcb, w: Wire)
    requires EndOk(p)
    ensures var q := InputState(Exact, p, w);
            EndOk(q) && q.cfg == p.cfg && q.snd.nxt == p.snd.nxt && p.snd.una <= q.snd.una && p.rcv.nxt <= q.rcv.nxt
  {
    UnaShrinks(p.snd, p.cfg.sndWnd, w.una);
    if w.cmd == CMD_ACK {
      AckShrinks(AfterUna(p.snd, w.una), p.cfg.sndWnd, w.sn);
    } else if w.cmd == CMD_PUSH {
      PushGrows(p.rcv, p.cfg.rcvWnd, w);
    }
  }

  lemma LiftWraps(p: Pcb, w: Wire)
    requires OnWire(w)
    ensures WrapWire(LiftWire(p, w)) == w
  {
  }

  /** One segment, whatever its numbers. */
  lemma AnyWire(p: Pcb, w: Wire)
    requires EndOk(p) && OnWire(w)
    ensures InputState(Wrapping, WrapPcb(p), w) == WrapPcb(InputState(Exact, p, LiftWire(p, w)))
  {
    var x := LiftWire(p, w);
    LiftWraps(p, w);
    InputSndWraps(p.snd, p.cfg.sndWnd, x);
    InputRcvWraps(p.rcv, p.cfg.rcvWnd, x);
  }

  /** The segments of a datagram, each read when its turn comes. */
  function LiftWires(p: Pcb, ws: seq<Wire>): (r: seq<Wire>)
    ensures |r| == |ws|
    decreases |ws|
  {
    if ws == [] then []
    else
      var w := LiftWire(p, ws[0]);
      [w] + LiftWires(InputState(Exact, p, w), ws[1..])
  }

  lemma {:induction false} AnyWires(p: Pcb, e: InCtx, c: InCtx, ws: seq<Wire>)
    requires EndOk(p) && e.s == p && c.s == WrapPcb(p) && 0 <= c.maxack < 0x1_0000_0000
    requires forall w :: w in ws ==> OnWire(w)
    ensures var q, d := InputWires(Exact, e, LiftWires(p, ws)).s, InputWires(Wrapping, c, ws);
            && EndOk(q) && d.s == WrapPcb(q) && 0 <= d.maxack < 0x1_0000_0000
            && q.cfg == p.cfg && q.snd.nxt == p.snd.nxt && p.snd.una <= q.snd.una && p.rcv.nxt <= q.rcv.nxt
    decreases |ws|
  {
    if ws != [] {
      var w := LiftWire(p, ws[0]);
      AnyWire(p, ws[0]);
      ExactWireOk(p, w);
      assert LiftWires(p, ws)[1..] == LiftWires(InputState(Exact, p, w), ws[1..]);
      AnyWires(InputState(Exact, p, w), InputWire(Exact, e, w), InputWire(Wrapping, c, ws[0]), ws[1..]);
    }
  }

  lemma ExactFastackOk(s: Sender, wnd: nat, sn: int)
    requires SndOk(s, wnd)
    ensures SndOk(ParseFastack(Exact, s, sn), wnd)
  {
    CountSkippedKeeps(Exact, s.buf, sn);
    var b := ParseFastack(Exact, s, sn).buf;
    assert forall i :: 0 <= i < |b| ==> s.buf[i] in s.buf;
  }

  /** ikcp_input on unbounded numbers: every number is read as the nearest one.  Which ack
      of the datagram is the newest is what the 32-bit comparison says. */
  function LiftInput(p: Pcb, ws: seq<Wire>, ok: bool): Pcb {
    var q := InputWires(Exact, InCtx(p, false, 0), LiftWires(p, ws)).s;
    var c := InputWires(Wrapping, InCtx(WrapPcb(p), false, 0), ws);
    FinishInput(Exact, InCtx(q, c.flag, Lift(c.maxack, q.snd.una)), p.snd.una, ok)
  }

  /** A whole datagram, well formed or not. */
  lemma AnyInput(p: Pcb, ws: seq<Wire>, ok: bool)
    requires EndOk(p) && forall w :: w in ws ==> OnWire(w)
    ensures var q := LiftInput(p, ws, ok);
            && EndOk(q) && Input(Wrapping, WrapPcb(p), ws, ok) == WrapPcb(q)
            && q.cfg == p.cfg && q.snd.nxt == p.snd.nxt && p.snd.una <= q.snd.una && p.rcv.nxt <= q.rcv.nxt
  {
    var c0, e0 := InCtx(WrapPcb(p), false, 0), InCtx(p, false, 0);
    AnyWires(p, e0, c0, ws);
    if ok {
      var c := InputWires(Wrapping, c0, ws);
      var q := InputWires(Exact, e0, LiftWires(p, ws)).s;
      AnyFastack(q.snd, q.cfg.sndWnd, c.maxack);
      NearDiff(q.snd.una, p.snd.una);
    }
  }

  lemma AnyFastack(s: Sender, wnd: nat, maxack: int)
    requires SndOk(s, wnd) && wnd < HALF && 0 <= maxack < 0x1_0000_0000
    ensures var t := ParseFastack(Exact, s, Lift(maxack, s.una));
            SndOk(t, wnd) && t.una == s.una && t.nxt == s.nxt && WrapSnd(t) == ParseFastack(Wrapping, WrapSnd(s), maxack)
  {
    var sn := Lift(maxack, s.una);
    LiftU32(maxack, s.una);
    FastackWraps(s, wnd, sn);
    ExactFastackOk(s, wnd, sn);
  }

  // -------------------------------------------------------------- any calls

  datatype Call =
    | CallSend(msg: seq<byte>)
    | CallRecv(len: int)
    | CallInput(bytes: seq<byte>)
    | CallUpdate(now: u32)
    | CallFlush

  /** ikcp_input on bytes.  Fewer than a header of bytes hold no segment. */
  function InputBytes(c: Pcb, bytes: seq<byte>): Pcb {
    var r := Parse(c.cfg.conv, bytes);
    Input(Wrapping, c, r.wires, r.status == 0)
  }

  /** The effect of one call on the state of the C code. */
  function AfterCall(c: Pcb, call: Call): Pcb
    requires c.cfg.mss > 0
  {
    match call
    case CallSend(msg) => c.(snd := c.snd.(queue := Send(c.cfg, c.snd.queue, msg).queue))
    case CallRecv(len) =>
      var v := Recv(Wrapping, c.rcv, c.cfg.rcvWnd, len);
      c.(rcv := v.rcv, probe := c.probe.(tell := c.probe.tell || v.tell))
    case CallInput(bytes) => InputBytes(c, bytes)
    case CallUpdate(now) => Update(Wrapping, c, now).s
    case CallFlush => Flush(Wrapping, c).s
  }

  /** The call makes ikcp_flush run to its end: ikcp_flush itself, or an ikcp_update that
      is due; the second copy waits for the first ikcp_update. */
  predicate Flushes(c: Pcb, call: Call) {
    match call
    case CallUpdate(now) => FlushDue(Wrapping, c, now)
    case CallFlush => c.cfg.copy.Basic? || c.clock.updated
    case _ => false
  }

  /** The state in which its flush starts: ikcp_update has moved the clock. */
  function Before(c: Pcb, call: Call): Pcb {
    if call.CallUpdate? then Ticked(Wrapping, c, call.now) else c
  }

  lemma ExactRecvOk(r: Receiver, wnd: nat, len: int)
    requires RcvOk(r, wnd)
    ensures RcvOk(Recv(Exact, r, wnd, len).rcv, wnd) && r.nxt <= Recv(Exact, r, wnd, len).rcv.nxt
  {
    MoveReadyOk(r, wnd);
    MoveReadyOk(r.(queue := r.queue[HeadCount(r.queue)..]), wnd);
  }

  lemma ExactFlushOk(p: Pcb)
    requires EndOk(p)
    ensures var q := Flush(Exact, p).s;
            EndOk(q) && q.cfg == p.cfg && p.snd.una == q.snd.una && p.snd.nxt <= q.snd.nxt && p.rcv.nxt == q.rcv.nxt
  {
    AdmittedOk(p);
    TouchShape(Admitted(Exact, p), p.cfg.sndWnd, p.cfg, p.clock.current, p.rtt.rto);
  }

  /** Numbering keeps the shape of the send side. */
  lemma AdmittedOk(p: Pcb)
    requires EndOk(p)
    ensures SndOk(Admitted(Exact, p), p.cfg.sndWnd)
    ensures p.snd.una == Admitted(Exact, p).una && p.snd.nxt <= Admitted(Exact, p).nxt
  {
    var current, rto := p.clock.current, p.rtt.rto;
    var k := AdmitNumbers(p.snd, SendWindow(p), current, rto);
    var s := Admitted(Exact, p);
    var added := Number(p.snd.nxt, p.snd.queue[..k], current, rto);
    assert s.buf == p.snd.buf + added;
    assert SndAscending(s.buf) by {
      assert forall g :: g in p.snd.buf ==> g.sn < p.snd.nxt;
    }
  }

  lemma TouchShape(s: Sender, wnd: nat, cfg: Config, current: int, rto: u32)
    requires SndOk(s, wnd)
    ensures SndOk(s.(buf := TouchAll(Exact, cfg, current, rto, s.buf)), wnd)
  {
    var b := TouchAll(Exact, cfg, current, rto, s.buf);
    assert forall i :: 0 <= i < |b| ==> b[i].sn == s.buf[i].sn && s.buf[i] in s.buf;
  }

  /** The same call on unbounded numbers; incoming ones are read as the nearest. */
  function LiftedCall(p: Pcb, call: Call): Pcb
    requires p.cfg.mss > 0
  {
    match call
    case CallSend(msg) => p.(snd := p.snd.(queue := Send(p.cfg, p.snd.queue, msg).queue))
    case CallRecv(len) =>
      var v := Recv(Exact, p.rcv, p.cfg.rcvWnd, len);
      p.(rcv := v.rcv, probe := p.probe.(tell := p.probe.tell || v.tell))
    case CallInput(bytes) =>
      var r := Parse(p.cfg.conv, bytes);
      LiftInput(p, r.wires, r.status == 0)
    case CallUpdate(now) => Update(Exact, p, now).s
    case CallFlush => Flush(Exact, p).s
  }

  /** Every call on 32-bit numbers is that call on unbounded ones, and keeps the shape;
      snd_una and rcv_nxt never go back. */
  lemma AnyCall(p: Pcb, call: Call)
    requires EndOk(p)
    ensures var q := LiftedCall(p, call);
            && EndOk(q) && AfterCall(WrapPcb(p), call) == WrapPcb(q)
            && q.cfg == p.cfg && p.snd.una <= q.snd.una <= p.snd.nxt <= q.snd.nxt && p.rcv.nxt <= q.rcv.nxt
  {
    hide Send, Recv, Flush, Tick, Input, LiftInput, Parse;
    match call
    case CallSend(msg) =>
    case CallRecv(len) =>
      RecvWraps(p.rcv, p.cfg.rcvWnd, len);
      ExactRecvOk(p.rcv, p.cfg.rcvWnd, len);
    case CallInput(bytes) =>
      var r := Parse(p.cfg.conv, bytes);
      AnyInput(p, r.wires, r.status == 0);
    case CallUpdate(now) =>
      UpdateWraps(p, now);
      ExactFlushOk(Ticked(Exact, p, now));
    case CallFlush =>
      FlushWraps(p);
      ExactFlushOk(p);
  }

  lemma OneWire(c: InCtx, w: Wire)
    ensures InputWires(Wrapping, c, [w]) == InputWire(Wrapping, c, w)
  {
    assert [w][1..] == [];
    assert InputWires(Wrapping, c, [w]) == InputWires(Wrapping, InputWire(Wrapping, c, w), []);
  }

  lemma WireTimesFit(c: Pcb, w: Wire)
    requires TimesFit(c) && OnWire(w)
    ensures TimesFit(InputState(Wrapping, c, w))
  {
    var r1 := c.rcv.(acks := c.rcv.acks + [Ack(w.sn, w.ts)]);
    MoveReadyAcks(Wrapping, r1.(buf := Insert(Wrapping, r1.buf, RcvSeg(w.sn, Frag(w.frg, w.data)))), c.cfg.rcvWnd);
  }

  lemma {:induction false} WiresTimesFit(c: InCtx, ws: seq<Wire>)
    requires TimesFit(c.s) && forall w :: w in ws ==> OnWire(w)
    ensures TimesFit(InputWires(Wrapping, c, ws).s)
    decreases |ws|
  {
    if ws != [] {
      WireTimesFit(c.s, ws[0]);
      WiresTimesFit(InputWire(Wrapping, c, ws[0]), ws[1..]);
    }
  }

  lemma CallTimesFit(c: Pcb, call: Call)
    requires c.cfg.mss > 0 && TimesFit(c)
    ensures TimesFit(AfterCall(c, call))
  {
    match call
    case CallSend(msg) =>
    case CallRecv(len) =>
      MoveReadyAcks(Wrapping, c.rcv, c.cfg.rcvWnd);
      MoveReadyAcks(Wrapping, c.rcv.(queue := c.rcv.queue[HeadCount(c.rcv.queue)..]), c.cfg.rcvWnd);
    case CallInput(bytes) => WiresTimesFit(InCtx(c, false, 0), Parse(c.cfg.conv, bytes).wires);
    case CallUpdate(now) =>
    case CallFlush =>
  }

  function AfterCalls(cfg: Config, calls: seq<Call>): (c: Pcb)
    requires ValidConfig(cfg)
    ensures c.cfg == cfg
  {
    if calls == [] then Create(cfg)
    else
      var c := AfterCalls(cfg, calls[..|calls| - 1]);
      CallKeepsConfig(c, calls[|calls| - 1]);
      AfterCall(c, calls[|calls| - 1])
  }

  lemma AfterNext(cfg: Config, calls: seq<Call>, k: nat)
    requires ValidConfig(cfg) && k < |calls|
    ensures AfterCalls(cfg, calls[..k + 1]) == AfterCall(AfterCalls(cfg, calls[..k]), calls[k])
  {
    assert calls[..k + 1][..k] == calls[..k];
  }

  lemma CallKeepsConfig(c: Pcb, call: Call)
    requires c.cfg.mss > 0
    ensures AfterCall(c, call).cfg == c.cfg
  {
    if call.CallInput? {
      WiresKeepConfig(InCtx(c, false, 0), Parse(c.cfg.conv, call.bytes).wires);
    }
  }

  lemma {:induction false} WiresKeepConfig(c: InCtx, ws: seq<Wire>)
    ensures InputWires(Wrapping, c, ws).s.cfg == c.s.cfg
    decreases |ws|
  {
    if ws != [] {
      WiresKeepConfig(InputWire(Wrapping, c, ws[0]), ws[1..]);
    }
  }

  lemma {:induction false} AnyCallsOk(cfg: Config, calls: seq<Call>)
    requires ValidConfig(cfg)
    ensures U32Ok(AfterCalls(cfg, calls))
  {
    if calls == [] {
      assert WrapSegs([]) == [] && WrapRcvSegs([]) == [] && WrapAcks([]) == [];
      assert EndOk(Create(cfg)) && Create(cfg) == WrapPcb(Create(cfg));
    } else {
      var n := |calls| - 1;
      AnyCallsOk(cfg, calls[..n]);
      var p :| EndOk(p) && AfterCalls(cfg, calls[..n]) == WrapPcb(p);
      AnyCall(p, calls[n]);
      CallTimesFit(AfterCalls(cfg, calls[..n]), calls[n]);
    }
  }

  // -------------------------------------------- what that means for the C code

  lemma SndFits(s: Sender, wnd: nat)
    requires SndOk(s, wnd)
    ensures |s.buf| <= wnd
  {
    if s.buf != [] {
      SndSpread(s.buf, |s.buf| - 1);
      assert s.buf[|s.buf| - 1] in s.buf;
    }
  }

  lemma {:induction false} SndSpread(buf: seq<SndSeg>, i: nat)
    requires SndAscending(buf) && i < |buf|
    ensures buf[0].sn + i <= buf[i].sn
  {
    if i > 0 {
      SndSpread(buf, i - 1);
      assert buf[i - 1].sn < buf[i].sn;
    }
  }

  lemma {:induction false} RcvSpread(buf: seq<RcvSeg>, i: nat)
    requires RcvAscending(buf) && i < |buf|
    ensures buf[0].sn + i <= buf[i].sn
  {
    if i > 0 {
      RcvSpread(buf, i - 1);
      assert buf[i - 1].sn < buf[i].sn;
    }
  }

  lemma RcvFits(r: Receiver, wnd: nat)
    requires RcvOk(r, wnd)
    ensures |r.buf| <= wnd
  {
    if r.buf != [] {
      RcvSpread(r.buf, |r.buf| - 1);
      assert r.buf[0] in r.buf && r.buf[|r.buf| - 1] in r.buf;
    }
  }

  /** In the terms of the C code, with _itimediff as its order: snd_buf ascends
      inside [snd_una, snd_nxt), snd_una is its head or snd_nxt, at most snd_wnd
      segments are in flight; rcv_buf ascends inside [rcv_nxt, rcv_nxt + rcv_wnd);
      no queue of the two exceeds its window. */
  ghost predicate Shape(c: Pcb) {
    && (forall i, j :: 0 <= i < j < |c.snd.buf| ==> TimeDiff(c.snd.buf[j].sn, c.snd.buf[i].sn) > 0)
    && (forall g :: g in c.snd.buf ==> TimeDiff(g.sn, c.snd.una) >= 0 && TimeDiff(g.sn, c.snd.nxt) < 0)
    && c.snd.una == (if c.snd.buf == [] then c.snd.nxt else c.snd.buf[0].sn)
    && 0 <= TimeDiff(c.snd.nxt, c.snd.una) <= c.cfg.sndWnd && |c.snd.buf| <= c.cfg.sndWnd
    && (forall i, j :: 0 <= i < j < |c.rcv.buf| ==> TimeDiff(c.rcv.buf[j].sn, c.rcv.buf[i].sn) > 0)
    && (forall g :: g in c.rcv.buf ==> 0 <= TimeDiff(g.sn, c.rcv.nxt) < c.cfg.rcvWnd)
    && |c.rcv.buf| <= c.cfg.rcvWnd && |c.rcv.queue| <= c.cfg.rcvWnd
  }

  lemma SndShape(s: Sender, wnd: nat)
    requires SndOk(s, wnd) && wnd < HALF
    ensures var c := WrapSnd(s);
            && (forall i, j :: 0 <= i < j < |c.buf| ==> TimeDiff(c.buf[j].sn, c.buf[i].sn) > 0)
            && (forall g :: g in c.buf ==> TimeDiff(g.sn, c.una) >= 0 && TimeDiff(g.sn, c.nxt) < 0)
            && 0 <= TimeDiff(c.nxt, c.una) <= wnd
  {
    var c := WrapSnd(s);
    NearDiff(s.nxt, s.una);
    forall i, j | 0 <= i < j < |c.buf|
      ensures TimeDiff(c.buf[j].sn, c.buf[i].sn) > 0
    {
      assert s.buf[i] in s.buf && s.buf[j] in s.buf;
      NearDiff(s.buf[j].sn, s.buf[i].sn);
    }
    forall g | g in c.buf
      ensures TimeDiff(g.sn, c.una) >= 0 && TimeDiff(g.sn, c.nxt) < 0
    {
      var i :| 0 <= i < |c.buf| && c.buf[i] == g;
      assert s.buf[i] in s.buf;
      NearDiff(s.buf[i].sn, s.una);
      NearDiff(s.buf[i].sn, s.nxt);
    }
  }

  lemma RcvShape(r: Receiver, wnd: nat)
    requires RcvOk(r, wnd) && wnd < HALF
    ensures var c := WrapRcv(r);
            && (forall i, j :: 0 <= i < j < |c.buf| ==> TimeDiff(c.buf[j].sn, c.buf[i].sn) > 0)
            && (forall g :: g in c.buf ==> 0 <= TimeDiff(g.sn, c.nxt) < wnd)
  {
    var c := WrapRcv(r);
    forall i, j | 0 <= i < j < |c.buf|
      ensures TimeDiff(c.buf[j].sn, c.buf[i].sn) > 0
    {
      assert r.buf[i] in r.buf && r.buf[j] in r.buf;
      NearDiff(r.buf[j].sn, r.buf[i].sn);
    }
    forall g | g in c.buf
      ensures 0 <= TimeDiff(g.sn, c.nxt) < wnd
    {
      var i :| 0 <= i < |c.buf| && c.buf[i] == g;
      assert r.buf[i] in r.buf;
      NearDiff(r.buf[i].sn, r.nxt);
    }
  }

  /** For every sequence of calls, with arbitrary incoming bytes. */
  lemma ShapeHolds(cfg: Config, calls: seq<Call>)
    requires ValidConfig(cfg)
    ensures Shape(AfterCalls(cfg, calls))
  {
    AnyCallsOk(cfg, calls);
    var c := AfterCalls(cfg, calls);
    var p :| EndOk(p) && c == WrapPcb(p);
    SndShape(p.snd, cfg.sndWnd);
    RcvShape(p.rcv, cfg.rcvWnd);
    SndFits(p.snd, cfg.sndWnd);
    RcvFits(p.rcv, cfg.rcvWnd);
  }

  /** snd_una only moves forward, and by no more than what was in flight, whatever
      a call is given. */
  lemma UnaNeverGoesBack(cfg: Config, calls: seq<Call>, call: Call)
    requires ValidConfig(cfg)
    ensures var c := AfterCalls(cfg, calls);
            var d := AfterCall(c, call);
            0 <= TimeDiff(d.snd.una, c.snd.una) <= TimeDiff(c.snd.nxt, c.snd.una)
  {
    AnyCallsOk(cfg, calls);
    var c := AfterCalls(cfg, calls);
    var p :| EndOk(p) && c == WrapPcb(p);
    AnyCall(p, call);
    NearDiff(p.snd.nxt, p.snd.una);
    NearDiff(LiftedCall(p, call).snd.una, p.snd.una);
  }
}
