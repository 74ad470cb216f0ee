/** What ikcp_flush puts on the wire, for every sequence of calls: exactly the
    acks, probes and due segments, in datagrams that fit the mtu, and the peer's
    parse loop reads the same segments back. */
module Datagrams {
  import opened Basics
  import opened Serial
  import opened KcpTypes
  import opened KcpSpec
  import opened Packing
  import opened Codec
  import opened Endpoint
  import opened Refinement
  import opened AnyBytes

  /** No fragment is longer than the mss. */
  ghost predicate Fits(c: Pcb) {
    && (forall f :: f in c.snd.queue ==> |f.data| <= c.cfg.mss)
    && (forall g :: g in c.snd.buf ==> |g.frag.data| <= c.cfg.mss)
  }

  lemma {:induction false} CutFits(mss: nat, data: seq<byte>, count: nat, stream: bool)
    requires count <= 256
    ensures forall f :: f in Cut(mss, data, count, stream) ==> |f.data| <= mss
  {
    if count > 0 {
      CutFits(mss, data[Min(|data|, mss)..], count - 1, stream);
    }
  }

  lemma SendFits(cfg: Config, queue: seq<Frag>, msg: seq<byte>)
    requires cfg.mss > 0 && forall f :: f in queue ==> |f.data| <= cfg.mss
    ensures forall f :: f in Send(cfg, queue, msg).queue ==> |f.data| <= cfg.mss
  {
    var rest := msg[StreamExtend(cfg, queue, msg)..];
    var count := FragCount(cfg.mss, |rest|);
    if !TooManyFrags(cfg.copy, count) {
      CutFits(cfg.mss, rest, count, cfg.stream);
    }
  }

  lemma {:induction false} RemoveAckedSubset(m: Mode, buf: seq<SndSeg>, sn: int)
    ensures forall g :: g in RemoveAcked(m, buf, sn) ==> g in buf
  {
    if buf != [] {
      RemoveAckedSubset(m, buf[1..], sn);
    }
  }

  lemma InputSndFits(m: Mode, s: Sender, w: Wire, mss: nat)
    requires forall g :: g in s.buf ==> |g.frag.data| <= mss
    ensures var t := InputSnd(m, s, w);
            t.queue == s.queue && forall g :: g in t.buf ==> |g.frag.data| <= mss
  {
    var k := ParseUnaSuffix(m, s.buf, w.una);
    RemoveAckedSubset(m, s.buf[k..], w.sn);
  }

  lemma {:induction false} WiresFit(c: InCtx, ws: seq<Wire>)
    requires Fits(c.s)
    ensures var d := InputWires(Wrapping, c, ws);
            Fits(d.s) && d.s.cfg == c.s.cfg
    decreases |ws|
  {
    if ws != [] {
      InputSndFits(Wrapping, c.s.snd, ws[0], c.s.cfg.mss);
      WiresFit(InputWire(Wrapping, c, ws[0]), ws[1..]);
    }
  }

  lemma InputFits(c: Pcb, ws: seq<Wire>, ok: bool)
    requires Fits(c)
    ensures Fits(Input(Wrapping, c, ws, ok))
  {
    WiresFit(InCtx(c, false, 0), ws);
    var d := InputWires(Wrapping, InCtx(c, false, 0), ws);
    CountSkippedKeeps(Wrapping, d.s.snd.buf, d.maxack);
    var b := ParseFastack(Wrapping, d.s.snd, d.maxack).buf;
    assert forall i :: 0 <= i < |b| ==> b[i].frag == d.s.snd.buf[i].frag && d.s.snd.buf[i] in d.s.snd.buf;
  }

  lemma {:induction false} AdmitFits(m: Mode, s: Sender, window: nat, current: int, rto: u32, mss: nat)
    requires forall f :: f in s.queue ==> |f.data| <= mss
    requires forall g :: g in s.buf ==> |g.frag.data| <= mss
    ensures var t := Admit(m, s, window, current, rto);
            && (forall f :: f in t.queue ==> |f.data| <= mss)
            && (forall g :: g in t.buf ==> |g.frag.data| <= mss)
    decreases |s.queue|
  {
    if Diff(m, s.nxt, Norm(m, s.una + window)) < 0 && s.queue != [] {
      AdmitFits(m, s.(queue := s.queue[1..], nxt := Norm(m, s.nxt + 1),
                      buf := s.buf + [SndSeg(s.nxt, s.queue[0], current, rto, 0, 0)]), window, current, rto, mss);
    }
  }

  lemma FlushFits(c: Pcb)
    requires Fits(c)
    ensures Fits(Flush(Wrapping, c).s)
    ensures forall g :: g in Admitted(Wrapping, c).buf ==> |g.frag.data| <= c.cfg.mss
  {
    AdmitFits(Wrapping, c.snd, SendWindow(c), c.clock.current, c.rtt.rto, c.cfg.mss);
    var s := Admitted(Wrapping, c);
    var b := TouchAll(Wrapping, c.cfg, c.clock.current, c.rtt.rto, s.buf);
    assert forall i :: 0 <= i < |b| ==> b[i].frag == s.buf[i].frag && s.buf[i] in s.buf;
  }

  lemma CallFits(c: Pcb, call: Call)
    requires c.cfg.mss > 0 && Fits(c)
    ensures Fits(AfterCall(c, call))
  {
    match call
    case CallSend(msg) => SendFits(c.cfg, c.snd.queue, msg);
    case CallRecv(len) =>
    case CallInput(bytes) =>
      var r := Parse(c.cfg.conv, bytes);
      InputFits(c, r.wires, r.status == 0);
    case CallUpdate(now) => FlushFits(Ticked(Wrapping, c, now));
    case CallFlush => FlushFits(c);
  }

  lemma {:induction false} CallsFit(cfg: Config, calls: seq<Call>)
    requires ValidConfig(cfg)
    ensures Fits(AfterCalls(cfg, calls))
  {
    if calls != [] {
      CallsFit(cfg, calls[..|calls| - 1]);
      CallFits(AfterCalls(cfg, calls[..|calls| - 1]), calls[|calls| - 1]);
    }
  }

  // ----------------------------------------------------- which segments go out

  /** The segments transmitted are exactly the new, timed-out and fast-acked ones. */
  lemma {:induction false} PushWiresExact(m: Mode, s: Pcb, buf: seq<SndSeg>)
    ensures forall g :: g in buf && !Judge(m, s.cfg, s.clock.current, g).Keep? ==> PushWire(s, g) in PushWires(m, s, buf)
    ensures forall w :: w in PushWires(m, s, buf) ==>
              exists g :: g in buf && !Judge(m, s.cfg, s.clock.current, g).Keep? && w == PushWire(s, g)
  {
    if buf != [] {
      var n := |buf| - 1;
      PushWiresExact(m, s, buf[..n]);
      assert buf == buf[..n] + [buf[n]];
      forall w | w in PushWires(m, s, buf)
        ensures exists g :: g in buf && !Judge(m, s.cfg, s.clock.current, g).Keep? && w == PushWire(s, g)
      {
        if w in PushWires(m, s, buf[..n]) {
          var g :| g in buf[..n] && !Judge(m, s.cfg, s.clock.current, g).Keep? && w == PushWire(s, g);
          assert g in buf;
        } else {
          assert buf[n] in buf;
        }
      }
    }
  }

  ghost predicate AscendingWires(ws: seq<Wire>) {
    forall i, j :: 0 <= i < j < |ws| ==> ws[i].sn < ws[j].sn
  }

  /** On unbounded numbers they go out in the order of their numbers. */
  lemma {:induction false} PushWiresAscend(m: Mode, s: Pcb, buf: seq<SndSeg>)
    requires SndAscending(buf)
    ensures AscendingWires(PushWires(m, s, buf))
  {
    if buf != [] {
      var n := |buf| - 1;
      PushWiresAscend(m, s, buf[..n]);
      var ws := PushWires(m, s, buf[..n]);
      PushWiresExact(m, s, buf[..n]);
      assert forall g :: g in buf[..n] ==> g.sn < buf[n].sn;
      forall i | 0 <= i < |ws|
        ensures ws[i].sn < buf[n].sn
      {
        assert ws[i] in ws;
      }
    }
  }

  /** In the order of _itimediff. */
  ghost predicate InSerialOrder(ws: seq<Wire>) {
    forall i, j :: 0 <= i < j < |ws| ==> TimeDiff(ws[j].sn, ws[i].sn) > 0
  }

  /** Numbers that ascend inside half the number space are in serial order modulo 2^32. */
  lemma AscendingIsSerial(ws: seq<Wire>, low: int)
    requires AscendingWires(ws) && forall w :: w in ws ==> low <= w.sn < low + HALF
    ensures InSerialOrder(WrapWires(ws))
  {
    forall i, j | 0 <= i < j < |ws|
      ensures TimeDiff(WrapWires(ws)[j].sn, WrapWires(ws)[i].sn) > 0
    {
      assert ws[i] in ws && ws[j] in ws;
      NearDiff(ws[j].sn, ws[i].sn);
    }
  }

  /** The 32-bit machine transmits in serial order, across the wrap as well. */
  lemma PushWiresSerial(c: Pcb)
    requires U32Ok(c)
    ensures InSerialOrder(PushWires(Wrapping, c, Admitted(Wrapping, c).buf))
  {
    var p :| EndOk(p) && c == WrapPcb(p);
    var snd := Admitted(Exact, p);
    AdmitWraps(p.snd, p.cfg.sndWnd, SendWindow(p), p.clock.current, p.rtt.rto);
    AdmittedOk(p);
    PushWiresAscend(Exact, p, snd.buf);
    PushWiresExact(Exact, p, snd.buf);
    PushWiresWrap(p, snd.buf);
    AscendingIsSerial(PushWires(Exact, p, snd.buf), snd.una);
  }

  // ------------------------------------------------------------ the round trip

  lemma ControlsEncodable(c: Pcb, pr: Probe)
    requires forall a :: a in c.rcv.acks ==> 0 <= a.sn < 0x1_0000_0000
    requires TimesFit(c) && 0 <= c.rcv.nxt < 0x1_0000_0000
    ensures forall w :: w in AckWires(c) + ProbeWires(c, pr) ==> Encodable(c.cfg.conv, w) && w.data == []
  {
    assert forall i :: 0 <= i < |c.rcv.acks| ==> c.rcv.acks[i] in c.rcv.acks;
  }

  lemma PushesEncodable(c: Pcb, buf: seq<SndSeg>)
    requires ValidConfig(c.cfg) && TimesFit(c) && 0 <= c.rcv.nxt < 0x1_0000_0000
    requires forall g :: g in buf ==> 0 <= g.sn < 0x1_0000_0000 && |g.frag.data| <= c.cfg.mss
    ensures forall w :: w in PushWires(Wrapping, c, buf) ==> Encodable(c.cfg.conv, w) && |w.data| <= c.cfg.mss
  {
    PushWiresExact(Wrapping, c, buf);
  }

  /** The numbers of the C code are 32-bit numbers, and stay so while a flush numbers more. */
  lemma FlushNumbersOk(c: Pcb)
    requires U32Ok(c)
    ensures ValidConfig(c.cfg) && 0 <= c.rcv.nxt < 0x1_0000_0000
    ensures forall a :: a in c.rcv.acks ==> 0 <= a.sn < 0x1_0000_0000
    ensures forall g :: g in Admitted(Wrapping, c).buf ==> 0 <= g.sn < 0x1_0000_0000
  {
    var p :| EndOk(p) && c == WrapPcb(p);
    AdmitWraps(p.snd, p.cfg.sndWnd, SendWindow(p), p.clock.current, p.rtt.rto);
    assert Admitted(Wrapping, c) == WrapSnd(Admitted(Exact, p));
  }

  lemma FlushEncodable(c: Pcb)
    requires U32Ok(c) && Fits(c)
    ensures ValidConfig(c.cfg)
    ensures forall w :: w in Flush(Wrapping, c).wires ==> Encodable(c.cfg.conv, w) && Need(w) <= c.cfg.mtu
  {
    FlushNumbersOk(c);
    FlushFits(c);
    ControlsEncodable(c, ProbeTimer(Wrapping, c.probe, c.cong.rmtWnd, c.clock.current));
    PushesEncodable(c, Admitted(Wrapping, c).buf);
  }

  /** What one flush in state c puts on the wire: its datagrams, put together, are the
      acks, then the probes, then the due segments in serial order; none is empty or
      longer than the mtu; and ikcp_input parses each into the segments encoded, without
      error. */
  ghost predicate FlushedWell(c: Pcb) {
    var f := Flush(Wrapping, c);
    var pushes := PushWires(Wrapping, c, Admitted(Wrapping, c).buf);
    var ds := Pack(c.cfg.mtu, f.wires);
    && Joined(ds) == f.wires
    && (c.cfg.copy.Basic? || c.clock.updated ==>
          f.wires == AckWires(c) + ProbeWires(c, ProbeTimer(Wrapping, c.probe, c.cong.rmtWnd, c.clock.current)) + pushes)
    && InSerialOrder(pushes)
    && (forall d :: d in ds ==>
          && (forall w :: w in d ==> Encodable(c.cfg.conv, w))
          && 0 < |EncodeAll(d)| <= c.cfg.mtu
          && Parse(c.cfg.conv, EncodeAll(d)) == Parsed(d, 0))
  }

  lemma FlushesWell(c: Pcb)
    requires U32Ok(c) && Fits(c)
    ensures FlushedWell(c)
  {
    FlushEncodable(c);
    PackRoundTrip(c.cfg, Flush(Wrapping, c).wires);
    PushWiresSerial(c);
  }

  /** For every sequence of calls, whether ikcp_flush is called or ikcp_update calls it. */
  lemma FlushRoundTrip(cfg: Config, calls: seq<Call>, now: u32)
    requires ValidConfig(cfg)
    ensures var c := AfterCalls(cfg, calls);
            FlushedWell(c) && FlushedWell(Ticked(Wrapping, c, now))
  {
    AnyCallsOk(cfg, calls);
    CallsFit(cfg, calls);
    var c := AfterCalls(cfg, calls);
    FlushesWell(c);
    var t := Ticked(Wrapping, c, now);
    assert U32Ok(t) by {
      var p :| EndOk(p) && c == WrapPcb(p);
      assert EndOk(p.(clock := t.clock)) && t == WrapPcb(p.(clock := t.clock));
    }
    FlushesWell(t);
  }

  lemma PackRoundTrip(cfg: Config, ws: seq<Wire>)
    requires forall w :: w in ws ==> Encodable(cfg.conv, w) && Need(w) <= cfg.mtu
    ensures Joined(Pack(cfg.mtu, ws)) == ws
    ensures forall d :: d in Pack(cfg.mtu, ws) ==>
              && (forall w :: w in d ==> Encodable(cfg.conv, w))
              && 0 < |EncodeAll(d)| <= cfg.mtu
              && Parse(cfg.conv, EncodeAll(d)) == Parsed(d, 0)
  {
    var ds := Pack(cfg.mtu, ws);
    PackLossless(cfg.mtu, ws);
    PackBounded(cfg.mtu, ws);
    forall d | d in ds
      ensures forall w :: w in d ==> Encodable(cfg.conv, w)
      ensures 0 < |EncodeAll(d)| <= cfg.mtu && Parse(cfg.conv, EncodeAll(d)) == Parsed(d, 0)
    {
      forall w | w in d
        ensures Encodable(cfg.conv, w)
      {
        JoinedMembers(ds, w);
      }
      EncodeSize(d);
      ParseEncode(cfg.conv, d);
    }
  }
}
