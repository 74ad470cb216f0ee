/** The whole system on bytes: two control blocks as the C code keeps them, joined by a
    network of byte strings.  It runs in step with the system of System.dfy, so what is
    proved there holds of the bytes ikcp_recv returns. */
module ByteRun {
  import opened Basics
  import opened Serial
  import opened KcpTypes
  import opened KcpSpec
  import opened Packing
  import opened Codec
  import opened AnyBytes
  import opened Datagrams
  import opened System
  import opened Streams
  import opened WrapRun
  import opened TimeRun
  import opened KcpClass

  /** One endpoint: its state, the byte strings its output callback was given, the messages
      ikcp_send accepted and those ikcp_recv returned. */
  datatype ByteHalf = ByteHalf(c: Pcb, net: seq<seq<byte>>, accepted: seq<seq<byte>>, returned: seq<seq<byte>>)

  function ByteStart(cfg: Config): ByteHalf {
    ByteHalf(Create(cfg), [], [], [])
  }

  function Output(h: ByteHalf, f: Flushed): ByteHalf {
    h.(c := f.s, net := h.net + EncodeEach(Pack(h.c.cfg.mtu, f.wires)))
  }

  /** One call made on self, whose peer has put out the byte strings peerNet. */
  function ByteStep(self: ByteHalf, peerNet: seq<seq<byte>>, act: Action): ByteHalf
    requires self.c.cfg.mss > 0
  {
    match act
    case DoSend(msg) =>
      self.(c := AfterCall(self.c, CallSend(msg)),
            accepted := if Send(self.c.cfg, self.c.snd.queue, msg).ret >= 0 then self.accepted + [msg] else self.accepted)
    case DoRecv(len) =>
      var r := Recv(Wrapping, self.c.rcv, self.c.cfg.rcvWnd, len);
      self.(c := AfterCall(self.c, CallRecv(len)),
            returned := if r.ret >= 0 && len >= 0 then self.returned + [r.data] else self.returned)
    case DoUpdate(now) => Output(self, Update(Wrapping, self.c, now))
    case DoFlush => Output(self, Flush(Wrapping, self.c))
    case Deliver(k) => if k < |peerNet| then self.(c := AfterCall(self.c, CallInput(peerNet[k]))) else self
  }

  datatype ByteSys = ByteSys(a: ByteHalf, b: ByteHalf)

  lemma ByteStepKeepsConfig(self: ByteHalf, peerNet: seq<seq<byte>>, act: Action)
    requires self.c.cfg.mss > 0
    ensures ByteStep(self, peerNet, act).c.cfg == self.c.cfg
  {
    if act.Deliver? && act.k < |peerNet| {
      CallKeepsConfig(self.c, CallInput(peerNet[act.k]));
    }
  }

  /** The state after a schedule, from two fresh control blocks. */
  function RunBytes(cfgA: Config, cfgB: Config, events: seq<Event>): (s: ByteSys)
    requires ValidConfig(cfgA) && ValidConfig(cfgB)
    ensures s.a.c.cfg == cfgA && s.b.c.cfg == cfgB
  {
    if events == [] then ByteSys(ByteStart(cfgA), ByteStart(cfgB))
    else
      var n := |events| - 1;
      var s, e := RunBytes(cfgA, cfgB, events[..n]), events[n];
      ByteStepKeepsConfig(s.a, s.b.net, e.act);
      ByteStepKeepsConfig(s.b, s.a.net, e.act);
      if e.atA then s.(a := ByteStep(s.a, s.b.net, e.act)) else s.(b := ByteStep(s.b, s.a.net, e.act))
  }

  // --------------------------------------------------- in step with the segments

  function Encoded(h: Half): ByteHalf {
    ByteHalf(h.p, EncodeEach(h.net), h.accepted, h.returned)
  }

  function EncodedSys(s: Sys): ByteSys {
    ByteSys(Encoded(s.a), Encoded(s.b))
  }

  /** What holds of an endpoint of the 32-bit machine between two calls, with all it has
      emitted. */
  ghost predicate HalfOk(h: Half) {
    && U32Ok(h.p) && Fits(h.p) && h.p.cfg.mss > 0
    && forall d :: d in h.net ==> Readable(h.p.cfg.conv, d)
  }

  ghost predicate Readable(conv: u32, d: Datagram) {
    forall w :: w in d ==> Encodable(conv, w)
  }

  lemma EncodeEachAppend(xs: seq<Datagram>, ys: seq<Datagram>)
    ensures EncodeEach(xs + ys) == EncodeEach(xs) + EncodeEach(ys)
  {
  }

  /** The call of one endpoint that an event is. */
  function CallOf(peerNet: seq<Datagram>, act: Action): Call
    requires act.Deliver? ==> act.k < |peerNet|
  {
    match act
    case DoSend(msg) => CallSend(msg)
    case DoRecv(len) => CallRecv(len)
    case DoUpdate(now) => CallUpdate(Wrap32(now))
    case DoFlush => CallFlush
    case Deliver(k) => CallInput(EncodeAll(peerNet[k]))
  }

  /** A datagram of the peer is read as what was encoded. */
  lemma ReadsBack(self: Half, d: Datagram)
    requires Readable(self.p.cfg.conv, d)
    ensures InputBytes(self.p, EncodeAll(d)) == Input(Wrapping, self.p, d, true)
  {
    ParseEncode(self.p.cfg.conv, d);
  }

  /** ikcp_update truncates the time it is given. */
  lemma UpdateStored(c: Pcb, now: int)
    ensures Update(Wrapping, c, now) == Update(Wrapping, c, Wrap32(now))
  {
    hide Tick, Flush;
    assert Wrap32(Wrap32(now)) == Wrap32(now);
  }

  lemma StepIsCall(self: Half, peerNet: seq<Datagram>, act: Action)
    requires self.p.cfg.mss > 0 && (act.Deliver? ==> act.k < |peerNet| && Readable(self.p.cfg.conv, peerNet[act.k]))
    ensures HalfStep(Wrapping, self, peerNet, act).p == AfterCall(self.p, CallOf(peerNet, act))
  {
    hide Send, Recv, Update, Flush, Input, Parse, EncodeAll;
    if act.Deliver? {
      ReadsBack(self, peerNet[act.k]);
    } else if act.DoUpdate? {
      UpdateStored(self.p, act.now);
    }
  }

  lemma FlushReadable(c: Pcb)
    requires U32Ok(c) && Fits(c)
    ensures forall d :: d in Pack(c.cfg.mtu, Flush(Wrapping, c).wires) ==> Readable(c.cfg.conv, d)
  {
    FlushesWell(c);
  }

  lemma TickedOk(c: Pcb, now: int)
    requires U32Ok(c) && Fits(c)
    ensures U32Ok(Ticked(Wrapping, c, now)) && Fits(Ticked(Wrapping, c, now))
  {
    var t := Ticked(Wrapping, c, now);
    var p :| Endpoint.EndOk(p) && c == Refinement.WrapPcb(p);
    assert Endpoint.EndOk(p.(clock := t.clock)) && t == Refinement.WrapPcb(p.(clock := t.clock));
  }

  /** All a call emits can be read by the peer. */
  lemma EmitsReadable(self: Half, peerNet: seq<Datagram>, act: Action)
    requires HalfOk(self)
    ensures forall d :: d in HalfStep(Wrapping, self, peerNet, act).net ==> Readable(self.p.cfg.conv, d)
  {
    hide U32Ok, Fits, Flush, Pack, Readable, Recv, Send, Input, Ticked;
    if act.DoFlush? {
      FlushReadable(self.p);
    } else if act.DoUpdate? {
      TickedOk(self.p, act.now);
      FlushReadable(Ticked(Wrapping, self.p, act.now));
      TickKeepsConfig(self.p, act.now);
      PackNothing(self.p.cfg.mtu);
    }
  }

  lemma TickKeepsConfig(c: Pcb, now: int)
    ensures Ticked(Wrapping, c, now).cfg == c.cfg
  {
  }

  lemma StepOk(self: Half, peerNet: seq<Datagram>, act: Action)
    requires HalfOk(self) && forall d :: d in peerNet ==> Readable(self.p.cfg.conv, d)
    ensures HalfOk(HalfStep(Wrapping, self, peerNet, act)) && HalfStep(Wrapping, self, peerNet, act).p.cfg == self.p.cfg
  {
    hide U32Ok, Fits, Readable, AfterCall, HalfStep;
    if act.Deliver? && act.k >= |peerNet| {
      NothingThere(self, peerNet, act.k);
    } else {
      StepIsCall(self, peerNet, act);
      CallOk(self.p, CallOf(peerNet, act));
      CallKeepsConfig(self.p, CallOf(peerNet, act));
      EmitsReadable(self, peerNet, act);
    }
  }

  lemma NothingThere(self: Half, peerNet: seq<Datagram>, k: nat)
    requires self.p.cfg.mss > 0 && k >= |peerNet|
    ensures HalfStep(Wrapping, self, peerNet, Deliver(k)) == self
  {
  }

  /** One call on bytes is the same call on segments, encoded. */
  lemma StepEncodes(self: Half, peerNet: seq<Datagram>, act: Action)
    requires self.p.cfg.mss > 0 && forall d :: d in peerNet ==> Readable(self.p.cfg.conv, d)
    ensures ByteStep(Encoded(self), EncodeEach(peerNet), act) == Encoded(HalfStep(Wrapping, self, peerNet, act))
  {
    hide Send, Recv, Flush, Ticked, FlushDue, Input, Pack, EncodeAll, Readable, InputBytes;
    match act
    case DoSend(msg) =>
    case DoRecv(len) =>
    case DoUpdate(now) => EncodeEachAppend(self.net, Pack(self.p.cfg.mtu, Update(Wrapping, self.p, now).wires));
    case DoFlush => EncodeEachAppend(self.net, Pack(self.p.cfg.mtu, Flush(Wrapping, self.p).wires));
    case Deliver(k) =>
      if k < |peerNet| {
        ReadsBack(self, peerNet[k]);
      }
  }

  lemma StartOk(cfg: Config)
    requires ValidConfig(cfg)
    ensures HalfOk(System.Start(cfg)) && Encoded(System.Start(cfg)) == ByteStart(cfg)
  {
    AnyCallsOk(cfg, []);
    assert Fits(Create(cfg));
  }

  /** The bytes exchanged by two control blocks with the same conv: at every moment of every
      run each has the state, and has accepted and returned the messages, that it has in the
      system of segments, and what it has put out are the datagrams there, encoded. */
  lemma {:induction false} BytesRunInStep(cfgA: Config, cfgB: Config, events: seq<Event>)
    requires ValidConfig(cfgA) && ValidConfig(cfgB) && cfgA.conv == cfgB.conv
    ensures var s := Run(Wrapping, cfgA, cfgB, events);
            HalfOk(s.a) && HalfOk(s.b) && RunBytes(cfgA, cfgB, events) == EncodedSys(s)
  {
    hide HalfOk, HalfStep, ByteStep;
    if events == [] {
      StartOk(cfgA);
      StartOk(cfgB);
    } else {
      var n := |events| - 1;
      BytesRunInStep(cfgA, cfgB, events[..n]);
      var s, act := Run(Wrapping, cfgA, cfgB, events[..n]), events[n].act;
      BothStep(s.a, s.b, act);
      BothStep(s.b, s.a, act);
    }
  }

  lemma BothStep(self: Half, peer: Half, act: Action)
    requires HalfOk(self) && HalfOk(peer) && self.p.cfg.conv == peer.p.cfg.conv
    ensures HalfOk(HalfStep(Wrapping, self, peer.net, act)) && self.p.cfg.mss > 0
    ensures ByteStep(Encoded(self), EncodeEach(peer.net), act) == Encoded(HalfStep(Wrapping, self, peer.net, act))
  {
    hide HalfStep, ByteStep, Readable;
    StepOk(self, peer.net, act);
    StepEncodes(self, peer.net, act);
  }

  // ------------------------------------------------------------ what follows

  /** Message delivery, from the bytes given to ikcp_send to those ikcp_recv returns. */
  lemma MessagesArePrefixOnBytes(cfgA: Config, cfgB: Config, events: seq<Event>)
    requires ValidConfig(cfgA) && ValidConfig(cfgB) && cfgA.conv == cfgB.conv && !cfgA.stream && !cfgB.stream
    requires RecentRun(cfgA, cfgB, events)
    ensures var s := RunBytes(cfgA, cfgB, events);
            s.b.returned <= s.a.accepted && s.a.returned <= s.b.accepted
  {
    BytesRunInStep(cfgA, cfgB, events);
    MessagesArePrefixOnU32(cfgA, cfgB, events);
  }

  /** The byte pipe, in either mode. */
  lemma BytesArePrefixOnBytes(cfgA: Config, cfgB: Config, events: seq<Event>)
    requires ValidConfig(cfgA) && ValidConfig(cfgB) && cfgA.conv == cfgB.conv && RecentRun(cfgA, cfgB, events)
    ensures var s := RunBytes(cfgA, cfgB, events);
            && Joined(s.b.returned) <= SentBytes(cfgA, cfgB, events, true)
            && Joined(s.a.returned) <= SentBytes(cfgA, cfgB, events, false)
  {
    BytesRunInStep(cfgA, cfgB, events);
    RunWraps(cfgA, cfgB, events);
    BytesArePrefix(cfgA, cfgB, events);
  }

  /** From the bytes all the way to the machine on which neither numbers nor times wrap. */
  lemma BytesRefine(cfgA: Config, cfgB: Config, events: seq<Event>)
    requires ValidConfig(cfgA) && ValidConfig(cfgB) && cfgA.conv == cfgB.conv
    requires TimelyRun(cfgA, cfgB, events) && RecentRun(cfgA, cfgB, events)
    ensures RunBytes(cfgA, cfgB, events) == EncodedSys(WrapSys(ClockSys(Run(Ideal, cfgA, cfgB, events))))
  {
    BytesRunInStep(cfgA, cfgB, events);
    RunRefines(cfgA, cfgB, events);
  }
}
