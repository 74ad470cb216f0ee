/** Two endpoints over a network that may drop, duplicate and reorder: the
    network is the log of every datagram ever emitted, and delivering means
    inputting any logged datagram, any number of times, at any time. */
module System {
  import opened Serial
  import opened KcpTypes
  import opened KcpSpec
  import opened Packing

  /** One endpoint and its history: every datagram it emitted, the fragments it
      numbered (in order), the fragments it moved to rcv_queue, the messages
      ikcp_send accepted and the messages ikcp_recv returned. */
  datatype Half = Half(p: Pcb, net: seq<Datagram>, numbered: seq<Frag>, arrived: seq<Frag>,
                       accepted: seq<seq<byte>>, returned: seq<seq<byte>>)

  datatype Action =
    | DoSend(msg: seq<byte>)
    | DoRecv(len: int)
    | DoUpdate(now: int)
    | DoFlush
    | Deliver(k: nat)

  function Start(cfg: Config): Half {
    Half(Create(cfg), [], [], [], [], [])
  }

  function SendStep(h: Half, msg: seq<byte>): Half
    requires h.p.cfg.mss > 0
  {
    var r := Send(h.p.cfg, h.p.snd.queue, msg);
    h.(p := h.p.(snd := h.p.snd.(queue := r.queue)),
       accepted := if r.ret >= 0 then h.accepted + [msg] else h.accepted)
  }

  function RecvStep(m: Mode, h: Half, len: int): Half {
    var r := Recv(m, h.p.rcv, h.p.cfg.rcvWnd, len);
    var kept := if r.ret >= 0 && len >= 0 then |h.p.rcv.queue| - HeadCount(h.p.rcv.queue) else |h.p.rcv.queue|;
    h.(p := h.p.(rcv := r.rcv, probe := h.p.probe.(tell := h.p.probe.tell || r.tell)),
       arrived := h.arrived + Beyond(r.rcv.queue, kept),
       returned := if r.ret >= 0 && len >= 0 then h.returned + [r.data] else h.returned)
  }

  /** The elements of q from position n on. */
  function Beyond(q: seq<Frag>, n: nat): seq<Frag> {
    if n <= |q| then q[n..] else []
  }

  function EmitStep(h: Half, f: Flushed): Half {
    var taken := Max(|h.p.snd.queue| - |f.s.snd.queue|, 0);
    h.(p := f.s, net := h.net + Pack(h.p.cfg.mtu, f.wires), numbered := h.numbered + h.p.snd.queue[..taken])
  }

  function InputStep(m: Mode, h: Half, d: Datagram): Half {
    var p := Input(m, h.p, d, true);
    h.(p := p, arrived := h.arrived + Beyond(p.rcv.queue, |h.p.rcv.queue|))
  }

  /** One call made on self, whose peer's emissions are the log peerNet. */
  function HalfStep(m: Mode, self: Half, peerNet: seq<Datagram>, act: Action): Half
    requires self.p.cfg.mss > 0
  {
    match act
    case DoSend(msg) => SendStep(self, msg)
    case DoRecv(len) => RecvStep(m, self, len)
    case DoUpdate(now) => EmitStep(self, Update(m, self.p, now))
    case DoFlush => EmitStep(self, Flush(m, self.p))
    case Deliver(k) => if k < |peerNet| then InputStep(m, self, peerNet[k]) else self
  }

  datatype Sys = Sys(a: Half, b: Half)

  /** The endpoint on one side. */
  function Side(s: Sys, atA: bool): Half {
    if atA then s.a else s.b
  }

  datatype Event = Event(atA: bool, act: Action)

  function SysStep(m: Mode, s: Sys, e: Event): Sys
    requires s.a.p.cfg.mss > 0 && s.b.p.cfg.mss > 0
  {
    if e.atA then s.(a := HalfStep(m, s.a, s.b.net, e.act)) else s.(b := HalfStep(m, s.b, s.a.net, e.act))
  }

  lemma StepKeepsConfig(m: Mode, self: Half, peerNet: seq<Datagram>, act: Action)
    requires self.p.cfg.mss > 0
    ensures HalfStep(m, self, peerNet, act).p.cfg == self.p.cfg
  {
    if act.Deliver? && act.k < |peerNet| {
      InputKeepsConfig(m, InCtx(self.p, false, 0), peerNet[act.k]);
    }
  }

  lemma {:induction false} InputKeepsConfig(m: Mode, c: InCtx, ws: seq<Wire>)
    ensures InputWires(m, c, ws).s.cfg == c.s.cfg
    decreases |ws|
  {
    if ws != [] {
      InputKeepsConfig(m, InputWire(m, c, ws[0]), ws[1..]);
    }
  }

  /** The state after further events. */
  function Steps(m: Mode, s: Sys, events: seq<Event>): (t: Sys)
    requires s.a.p.cfg.mss > 0 && s.b.p.cfg.mss > 0
    ensures t.a.p.cfg == s.a.p.cfg && t.b.p.cfg == s.b.p.cfg
  {
    if events == [] then s
    else
      var n := |events| - 1;
      var t := Steps(m, s, events[..n]);
      StepKeepsConfig(m, t.a, t.b.net, events[n].act);
      StepKeepsConfig(m, t.b, t.a.net, events[n].act);
      SysStep(m, t, events[n])
  }

  /** The state after a schedule, starting from two fresh endpoints. */
  function Run(m: Mode, cfgA: Config, cfgB: Config, events: seq<Event>): (s: Sys)
    requires ValidConfig(cfgA) && ValidConfig(cfgB)
    ensures s.a.p.cfg == cfgA && s.b.p.cfg == cfgB
  {
    Steps(m, Sys(Start(cfgA), Start(cfgB)), events)
  }
}
