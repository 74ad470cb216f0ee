/** Fast acks: which segments an incoming datagram counts as skipped, and that a segment
    skipped often enough goes out with the next flush. */
module FastResend {
  import opened Serial
  import opened KcpTypes
  import opened KcpSpec
  import opened Codec
  import opened Endpoint
  import opened Refinement
  import opened AnyBytes
  import opened Datagrams
  import Timers

  // ------------------------------------------------------- what one datagram acks

  ghost predicate Acks(ws: seq<Wire>, sn: int) {
    exists w :: w in ws && w.cmd == CMD_ACK && w.sn == sn
  }

  ghost predicate HasAck(ws: seq<Wire>) {
    exists w :: w in ws && w.cmd == CMD_ACK
  }

  /** top is acked, and newer than every other number acked. */
  ghost predicate Newest(ws: seq<Wire>, top: int) {
    Acks(ws, top) && NoneNewer(ws, top)
  }

  ghost predicate NoneNewer(ws: seq<Wire>, top: int) {
    forall w :: w in ws && w.cmd == CMD_ACK ==> w.sn == top || TimeDiff(top, w.sn) > 0
  }

  /** The 32-bit comparisons of ikcp_input find the newest number. */
  lemma {:induction false} NewestFound(c: InCtx, ws: seq<Wire>, top: int)
    requires (c.flag && c.maxack == top) || Acks(ws, top)
    requires NoneNewer(ws, top) && (c.flag ==> c.maxack == top || TimeDiff(top, c.maxack) > 0)
    ensures var d := InputWires(Wrapping, c, ws);
            d.flag && d.maxack == top
    decreases |ws|
  {
    if ws != [] {
      hide TimeDiff, InputState;
      var w := ws[0];
      assert ws == [w] + ws[1..];
      assert w in ws && forall v :: v in ws[1..] ==> v in ws;
      if w.cmd == CMD_ACK && c.flag {
        OtherWay(top, w.sn);
        OtherWay(top, c.maxack);
      }
      NewestFound(InputWire(Wrapping, c, w), ws[1..], top);
    }
  }

  lemma OtherWay(a: int, b: int)
    ensures TimeDiff(a, a) == 0
    ensures TimeDiff(a, b) > 0 ==> TimeDiff(b, a) < 0
  {
    Timers.DiffFlips(a, b);
  }

  lemma {:induction false} NoAckNoFlag(c: InCtx, ws: seq<Wire>)
    requires !c.flag && !HasAck(ws)
    ensures !InputWires(Wrapping, c, ws).flag
    decreases |ws|
  {
    if ws != [] {
      assert ws[0] in ws && forall v :: v in ws[1..] ==> v in ws;
      NoAckNoFlag(InputWire(Wrapping, c, ws[0]), ws[1..]);
    }
  }

  lemma {:induction false} WiresOnlyRemove(c: InCtx, ws: seq<Wire>)
    ensures forall g :: g in InputWires(Wrapping, c, ws).s.snd.buf ==> g in c.s.snd.buf
    decreases |ws|
  {
    if ws != [] {
      var k := ParseUnaSuffix(Wrapping, c.s.snd.buf, ws[0].una);
      RemoveAckedSubset(Wrapping, c.s.snd.buf[k..], ws[0].sn);
      assert forall g :: g in c.s.snd.buf[k..] ==> g in c.s.snd.buf;
      WiresOnlyRemove(InputWire(Wrapping, c, ws[0]), ws[1..]);
    }
  }

  // --------------------------------------------------- which segments are skipped

  /** The segment after it has been skipped once more. */
  function OneMore(g: SndSeg): SndSeg {
    g.(fastack := (g.fastack + 1) % 0x1_0000_0000)
  }

  lemma {:induction false} CountsBelow(buf: seq<SndSeg>, sn: int, i: nat)
    requires SndAscending(buf) && i < |buf|
    ensures |CountSkipped(Exact, buf, sn)| == |buf|
    ensures CountSkipped(Exact, buf, sn)[i] == if buf[i].sn < sn then OneMore(buf[i]) else buf[i]
  {
    CountSkippedKeeps(Exact, buf, sn);
    if buf[0].sn <= sn && i > 0 {
      assert buf[1..][i - 1] == buf[i];
      CountsBelow(buf[1..], sn, i - 1);
    }
  }

  /** An ack of this number is one for a segment in flight. */
  predicate InFlightNow(s: Sender, sn: int) {
    TimeDiff(sn, s.una) >= 0 && TimeDiff(sn, s.nxt) < 0
  }

  lemma AscendsIn(s: Sender, wnd: nat)
    requires SndOk(s, wnd)
    ensures SndAscending(s.buf)
  {
  }

  lemma CountsBelowWrapped(s: Sender, wnd: nat, top: int, i: nat)
    requires SndOk(s, wnd) && wnd < HALF && i < |s.buf| && 0 <= top < 0x1_0000_0000
    ensures var c := WrapSnd(s);
            var t := ParseFastack(Wrapping, c, top);
            && |t.buf| == |c.buf| && t == c.(buf := t.buf)
            && t.buf[i] == if InFlightNow(c, top) && TimeDiff(top, c.buf[i].sn) > 0 then OneMore(c.buf[i]) else c.buf[i]
  {
    hide CountSkipped, TimeDiff, SndOk;
    var sn := Lift(top, s.una);
    LiftU32(top, s.una);
    assert SndAscending(s.buf) by { AscendsIn(s, wnd); }
    InFlightWraps(s, wnd, sn);
    if InFlight(Exact, s, sn) {
      assert s.buf[i] in s.buf;
      CountsBelow(s.buf, sn, i);
      CountSkippedWraps(s.buf, sn);
      NearDiff(sn, s.buf[i].sn);
    }
  }

  /** The state the fast acks of a datagram start from. */
  lemma WiresShaped(c: Pcb, ws: seq<Wire>) returns (q: Pcb)
    requires U32Ok(c) && forall w :: w in ws ==> OnWire(w)
    ensures var e := InputWires(Wrapping, InCtx(c, false, 0), ws);
            && EndOk(q) && e.s == WrapPcb(q) && 0 <= e.maxack < 0x1_0000_0000
            && forall g :: g in e.s.snd.buf ==> g in c.snd.buf
  {
    var p :| EndOk(p) && c == WrapPcb(p);
    hide EndOk, WrapPcb, InputWires;
    AnyWires(p, InCtx(p, false, 0), InCtx(c, false, 0), ws);
    WiresOnlyRemove(InCtx(c, false, 0), ws);
    q := InputWires(Exact, InCtx(p, false, 0), LiftWires(p, ws)).s;
  }

  /** h becomes g in an ikcp_input that leaves the send side as t, with top the newest
      number acked: one more skip if top is in flight and h is before it. */
  predicate SkippedTo(t: Sender, top: int, h: SndSeg, g: SndSeg) {
    g == if InFlightNow(t, top) && TimeDiff(top, h.sn) > 0 then OneMore(h) else h
  }

  lemma SkipsEach(s: Sender, wnd: nat, top: int, i: nat)
    requires SndOk(s, wnd) && wnd < HALF && i < |ParseFastack(Wrapping, WrapSnd(s), top).buf| && 0 <= top < 0x1_0000_0000
    ensures var t := ParseFastack(Wrapping, WrapSnd(s), top);
            |t.buf| == |s.buf| && SkippedTo(t, top, WrapSnd(s).buf[i], t.buf[i])
  {
    CountSkippedKeeps(Wrapping, WrapSnd(s).buf, top);
    CountsBelowWrapped(s, wnd, top, i);
  }

  /** One ikcp_input of a datagram without a parse error, in any state of the C code: with top
      the newest number it acks, each segment left in snd_buf has its count of skips one
      higher modulo 2^32 if top is in flight and the segment is before it, and is
      unchanged otherwise. */
  lemma InputSkips(c: Pcb, ws: seq<Wire>, top: int)
    requires U32Ok(c) && (forall w :: w in ws ==> OnWire(w)) && Newest(ws, top)
    ensures var d := Input(Wrapping, c, ws, true);
            forall g :: g in d.snd.buf ==> exists h :: h in c.snd.buf && SkippedTo(d.snd, top, h, g)
  {
    var q := WiresShaped(c, ws);
    NewestFound(InCtx(c, false, 0), ws, top);
    var s := InputWires(Wrapping, InCtx(c, false, 0), ws).s.snd;
    var t := Input(Wrapping, c, ws, true).snd;
    assert t == ParseFastack(Wrapping, s, top);
    assert s == WrapSnd(q.snd);
    hide SkippedTo, Newest, InputWires, ParseFastack, Input, WrapPcb;
    forall g | g in t.buf
      ensures exists h :: h in c.snd.buf && SkippedTo(t, top, h, g)
    {
      var i :| 0 <= i < |t.buf| && t.buf[i] == g;
      SkipsEach(q.snd, q.cfg.sndWnd, top, i);
      assert s.buf[i] in c.snd.buf;
    }
  }

  /** Without an ack, or after a parse error, no segment left is changed. */
  lemma InputSkipsNone(c: Pcb, ws: seq<Wire>, ok: bool)
    requires !ok || !HasAck(ws)
    ensures forall g :: g in Input(Wrapping, c, ws, ok).snd.buf ==> g in c.snd.buf
  {
    WiresOnlyRemove(InCtx(c, false, 0), ws);
    if ok {
      NoAckNoFlag(InCtx(c, false, 0), ws);
    }
  }

  // -------------------------------------------------------- which segments are left

  /** Nothing in the datagram says that g has arrived. */
  ghost predicate Unacked(ws: seq<Wire>, g: SndSeg) {
    forall w :: w in ws ==> w.una <= g.sn && (w.cmd == CMD_ACK ==> w.sn != g.sn)
  }

  lemma OneWireLeaves(s: Sender, wnd: nat, w: Wire)
    requires SndOk(s, wnd)
    ensures var t := InputSnd(Exact, s, w);
            SndOk(t, wnd) && forall g :: g in t.buf <==> g in s.buf && w.una <= g.sn && (w.cmd == CMD_ACK ==> w.sn != g.sn)
  {
    UnaShrinks(s, wnd, w.una);
    if w.cmd == CMD_ACK {
      AckShrinks(AfterUna(s, w.una), wnd, w.sn);
    }
  }

  lemma {:induction false} WiresLeave(c: InCtx, wnd: nat, ws: seq<Wire>)
    requires SndOk(c.s.snd, wnd)
    ensures var s := InputWires(Exact, c, ws).s.snd;
            SndOk(s, wnd) && forall g :: g in s.buf <==> g in c.s.snd.buf && Unacked(ws, g)
    decreases |ws|
  {
    if ws != [] {
      assert ws == [ws[0]] + ws[1..];
      OneWireLeaves(c.s.snd, wnd, ws[0]);
      WiresLeave(InputWire(Exact, c, ws[0]), wnd, ws[1..]);
    }
  }

  /** On unbounded numbers a segment is left exactly when no una of the datagram is past it
      and no ack names it; and no other segment appears. */
  lemma LeftExactly(p: Pcb, ws: seq<Wire>, ok: bool, sn: int)
    requires EndOk(p)
    ensures InSndBuf(Input(Exact, p, ws, ok).snd.buf, sn) <==> exists g :: g in p.snd.buf && g.sn == sn && Unacked(ws, g)
  {
    var e := InputWires(Exact, InCtx(p, false, 0), ws);
    WiresLeave(InCtx(p, false, 0), p.cfg.sndWnd, ws);
    var a, b := e.s.snd.buf, Input(Exact, p, ws, ok).snd.buf;
    CountSkippedKeeps(Exact, a, e.maxack);
    assert SameSegs(b, a);
    assert InSndBuf(b, sn) <==> InSndBuf(a, sn) by {
      assert forall i :: 0 <= i < |a| ==> a[i] in a && b[i] in b;
    }
  }

  // --------------------------------------------------------------------- all runs

  /** call is an ikcp_input without a parse error that skips segment sn. */
  ghost predicate Skips(c: Pcb, call: Call, sn: int)
    requires c.cfg.mss > 0
  {
    && call.CallInput?
    && var r := Parse(c.cfg.conv, call.bytes);
    && r.status == 0
    && exists top :: Newest(r.wires, top) && TimeDiff(top, sn) > 0 && InFlightNow(AfterCall(c, call).snd, top)
  }

  lemma {:induction false} CountSkippedSteps(m: Mode, buf: seq<SndSeg>, sn: int)
    ensures var b := CountSkipped(m, buf, sn);
            |b| == |buf| && forall i :: 0 <= i < |b| ==> b[i] == buf[i] || b[i] == OneMore(buf[i])
  {
    if buf != [] && Diff(m, sn, buf[0].sn) >= 0 {
      CountSkippedSteps(m, buf[1..], sn);
      assert forall i :: 0 < i < |buf| ==> buf[i] == buf[1..][i - 1];
    }
  }

  lemma InputSteps(c: Pcb, ws: seq<Wire>, ok: bool, g: SndSeg) returns (h: SndSeg)
    requires g in Input(Wrapping, c, ws, ok).snd.buf
    ensures h in c.snd.buf && (g == h || g == OneMore(h))
  {
    var e := InputWires(Wrapping, InCtx(c, false, 0), ws);
    WiresOnlyRemove(InCtx(c, false, 0), ws);
    var b := Input(Wrapping, c, ws, ok).snd.buf;
    var i :| 0 <= i < |b| && b[i] == g;
    CountSkippedSteps(Wrapping, e.s.snd.buf, e.maxack);
    h := e.s.snd.buf[i];
  }

  /** A call that does not flush changes a segment only by counting a skip, and does so if
      it skips the segment. */
  lemma CallSteps(c: Pcb, call: Call, g: SndSeg) returns (h: SndSeg)
    requires U32Ok(c) && c.cfg.mss > 0 && !Flushes(c, call) && g in AfterCall(c, call).snd.buf
    ensures h in c.snd.buf && (g == h || g == OneMore(h)) && (Skips(c, call, g.sn) ==> g == OneMore(h))
  {
    hide U32Ok, Input, Parse, TimeDiff, Newest;
    if call.CallInput? {
      var r := Parse(c.cfg.conv, call.bytes);
      if Skips(c, call, g.sn) {
        var top :| Newest(r.wires, top) && TimeDiff(top, g.sn) > 0 && InFlightNow(AfterCall(c, call).snd, top);
        ParsedOnWire(c.cfg.conv, call.bytes);
        InputSkips(c, r.wires, top);
        h :| h in c.snd.buf && SkippedTo(AfterCall(c, call).snd, top, h, g);
      } else {
        h := InputSteps(c, r.wires, r.status == 0, g);
      }
    } else {
      h := g;
    }
  }

  lemma ParsedOnWire(conv: u32, bytes: seq<byte>)
    ensures forall w :: w in Parse(conv, bytes).wires ==> OnWire(w)
  {
  }

  /** No call from the k-th on makes ikcp_flush run. */
  ghost predicate QuietSince(cfg: Config, calls: seq<Call>, k: nat)
    requires ValidConfig(cfg)
  {
    forall i :: k <= i < |calls| ==> !Flushes(AfterCalls(cfg, calls[..i]), calls[i])
  }

  /** How many of the calls from the k-th on skip segment sn. */
  ghost function SkipCount(cfg: Config, calls: seq<Call>, k: nat, sn: int): nat
    requires ValidConfig(cfg)
  {
    if |calls| <= k then 0
    else
      var n := |calls| - 1;
      SkipCount(cfg, calls[..n], k, sn) + (if Skips(AfterCalls(cfg, calls[..n]), calls[n], sn) then 1 else 0)
  }

  lemma {:induction false} SkipsAddUp(cfg: Config, calls: seq<Call>, k: nat, g: SndSeg) returns (h: SndSeg)
    requires ValidConfig(cfg) && k <= |calls| && QuietSince(cfg, calls, k)
    requires g in AfterCalls(cfg, calls).snd.buf
    ensures h in AfterCalls(cfg, calls[..k]).snd.buf && g == h.(fastack := g.fastack)
    ensures h.fastack + |calls| - k < 0x1_0000_0000 ==>
              h.fastack + SkipCount(cfg, calls, k, g.sn) <= g.fastack <= h.fastack + |calls| - k
  {
    hide Skips, AfterCall, AfterCalls, Flushes, QuietSince, U32Ok, SkipCount;
    SkipCountStep(cfg, calls, k, g.sn);
    if |calls| == k {
      assert calls[..k] == calls;
      h := g;
    } else {
      var n := |calls| - 1;
      var before := calls[..n];
      AnyCallsOk(cfg, before);
      QuietBefore(cfg, calls, k);
      assert calls[..n + 1] == calls;
      AfterNext(cfg, calls, n);
      var mid := CallSteps(AfterCalls(cfg, before), calls[n], g);
      h := SkipsAddUp(cfg, before, k, mid);
      assert before[..k] == calls[..k];
    }
  }

  lemma SkipCountStep(cfg: Config, calls: seq<Call>, k: nat, sn: int)
    requires ValidConfig(cfg)
    ensures |calls| <= k ==> SkipCount(cfg, calls, k, sn) == 0
    ensures |calls| > k ==>
              var n := |calls| - 1;
              var rest := SkipCount(cfg, calls[..n], k, sn);
              SkipCount(cfg, calls, k, sn) == rest + (if Skips(AfterCalls(cfg, calls[..n]), calls[n], sn) then 1 else 0)
  {
    hide Skips, AfterCalls;
  }

  lemma QuietBefore(cfg: Config, calls: seq<Call>, k: nat)
    requires ValidConfig(cfg) && k < |calls| && QuietSince(cfg, calls, k)
    ensures var n := |calls| - 1;
            QuietSince(cfg, calls[..n], k) && !Flushes(AfterCalls(cfg, calls[..n]), calls[n])
  {
    hide AfterCalls, Flushes;
    var n := |calls| - 1;
    assert forall i :: 0 <= i < n ==> calls[..n][..i] == calls[..i];
  }

  /** Fast retransmission.  A segment in snd_buf that is neither new nor timed out, and that
      `fastresend` datagrams have skipped since call k without a flush in between, goes out
      with the next flush: with its number, its data and the time of the flush.  In the second
      copy this holds while it has been transmitted at most fastlimit times, or fastlimit is
      not positive. */
  lemma SkippedIsResent(cfg: Config, calls: seq<Call>, k: nat, call: Call, g: SndSeg)
    requires ValidConfig(cfg) && k <= |calls| < 0x1_0000_0000 && QuietSince(cfg, calls, k)
    requires Flushes(AfterCalls(cfg, calls), call) && g in AfterCalls(cfg, calls).snd.buf
    requires g.xmit > 0 && TimeDiff(Before(AfterCalls(cfg, calls), call).clock.current, g.resendts) < 0
    requires 0 < cfg.fastresend <= SkipCount(cfg, calls, k, g.sn)
    requires cfg.copy.Basic? || cfg.fastlimit <= 0 || Signed32(g.xmit) <= cfg.fastlimit
    requires forall h :: h in AfterCalls(cfg, calls[..k]).snd.buf ==> h.fastack + |calls| - k < 0x1_0000_0000
    ensures var b := Before(AfterCalls(cfg, calls), call);
            && (exists w :: w in Flush(Wrapping, b).wires
                 && w.cmd == 81 && w.sn == g.sn && w.frg == g.frag.frg && w.data == g.frag.data && w.ts == b.clock.current)
            && (exists h :: h in AfterCall(AfterCalls(cfg, calls), call).snd.buf
                 && h.sn == g.sn && h.xmit == Wrap32(g.xmit + 1) && h.fastack == 0
                 && h.resendts == Wrap32(b.clock.current + g.rto))
  {
    hide AfterCalls, AfterCall, Flushes, QuietSince, SkipCount, TimeDiff, Flush, Ticked;
    var b := Before(AfterCalls(cfg, calls), call);
    var h := SkipsAddUp(cfg, calls, k, g);
    FlushStartsFrom(AfterCalls(cfg, calls), call);
    FlushResends(b, g);
  }

  /** The flush a call makes, and the state it starts from. */
  lemma FlushStartsFrom(c: Pcb, call: Call)
    requires c.cfg.mss > 0 && Flushes(c, call)
    ensures var b := Before(c, call);
            && b == c.(clock := b.clock) && AfterCall(c, call) == Flush(Wrapping, b).s
            && (c.cfg.copy.Basic? || b.clock.updated)
  {
  }

  lemma {:induction false} AdmitKeepsSegs(m: Mode, s: Sender, window: nat, current: int, rto: u32)
    ensures s.buf <= Admit(m, s, window, current, rto).buf
    decreases |s.queue|
  {
    if Diff(m, s.nxt, Norm(m, s.una + window)) < 0 && s.queue != [] {
      AdmitKeepsSegs(m, s.(queue := s.queue[1..], nxt := Norm(m, s.nxt + 1),
                           buf := s.buf + [SndSeg(s.nxt, s.queue[0], current, rto, 0, 0)]), window, current, rto);
    }
  }

  /** Neither new nor timed out, and skipped often enough. */
  predicate SkippedEnough(cfg: Config, now: int, g: SndSeg) {
    && g.xmit > 0 && TimeDiff(now, g.resendts) < 0
    && 0 < cfg.fastresend < HALF && cfg.fastresend <= g.fastack
    && (cfg.copy.Basic? || cfg.fastlimit <= 0 || Signed32(g.xmit) <= cfg.fastlimit)
  }

  lemma TouchedFast(cfg: Config, now: int, rxRto: u32, g: SndSeg)
    requires SkippedEnough(cfg, now, g)
    ensures Judge(Wrapping, cfg, now, g).Fast?
    ensures Touch(Wrapping, cfg, now, rxRto, g) == g.(xmit := Wrap32(g.xmit + 1), fastack := 0, resendts := Wrap32(now + g.rto))
  {
    WrapsNot(cfg.fastresend);
  }

  lemma StillThere(b: Pcb, g: SndSeg) returns (i: nat)
    requires g in b.snd.buf
    ensures i < |Admitted(Wrapping, b).buf| && Admitted(Wrapping, b).buf[i] == g
  {
    AdmitKeepsSegs(Wrapping, b.snd, SendWindow(b), b.clock.current, b.rtt.rto);
    i :| 0 <= i < |b.snd.buf| && b.snd.buf[i] == g;
  }

  lemma FlushResends(b: Pcb, g: SndSeg)
    requires b.cfg.copy.Basic? || b.clock.updated
    requires g in b.snd.buf && SkippedEnough(b.cfg, b.clock.current, g)
    ensures PushWire(b, g) in Flush(Wrapping, b).wires
    ensures g.(xmit := Wrap32(g.xmit + 1), fastack := 0, resendts := Wrap32(b.clock.current + g.rto)) in Flush(Wrapping, b).s.snd.buf
  {
    hide SkippedEnough, Judge, Touch, PushWire, PushWires, Admitted, AckWires, ProbeWires, FlushCong, LinkDies, ProbeTimer;
    var i := StillThere(b, g);
    TouchedFast(b.cfg, b.clock.current, b.rtt.rto, g);
    PushWiresExact(Wrapping, b, Admitted(Wrapping, b).buf);
    var t := TouchAll(Wrapping, b.cfg, b.clock.current, b.rtt.rto, Admitted(Wrapping, b).buf);
    assert t[i] in t;
  }
}
