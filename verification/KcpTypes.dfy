/** The data of one KCP control block (struct IKCPCB), grouped by concern. */
module KcpTypes {
  import opened Serial

  const CMD_PUSH: byte := 81
  const CMD_ACK: byte := 82
  const CMD_WASK: byte := 83
  const CMD_WINS: byte := 84

  const OVERHEAD: nat := 24
  const RTO_MAX: nat := 60000
  const THRESH_MIN: nat := 2
  const PROBE_INIT: u32 := 7000
  const PROBE_LIMIT: u32 := 120000
  const WND_RCV_EXT: nat := 128

  /** The two copies of the protocol in the repository:
      Basic is cpp/ikcp/ikcp.c, Extended is cpp/common/ikcp/ikcp.c. */
  datatype Copy = Basic | Extended

  /** The fields that are set before traffic starts. */
  datatype Config = Config(
    copy: Copy, conv: u32, mtu: nat, mss: nat, sndWnd: nat, rcvWnd: nat,
    nodelay: nat, interval: nat, minrto: nat, fastresend: nat, fastlimit: int,
    nocwnd: bool, stream: bool, deadLink: u32)

  /** What the setters guarantee: every configuration built by DefaultConfig and
      the three setters below satisfies it. */
  predicate ValidConfig(c: Config) {
    && 50 <= c.mtu < HALF && c.mss == c.mtu - OVERHEAD
    && 1 <= c.sndWnd < HALF && 1 <= c.rcvWnd < HALF
    && 10 <= c.interval <= 5000
    && (c.minrto == 30 || c.minrto == 100)
    && c.fastresend < HALF
    && (c.copy.Extended? ==> WND_RCV_EXT <= c.rcvWnd)
  }

  /** ikcp_create */
  function DefaultConfig(copy: Copy, conv: u32, stream: bool): (c: Config)
    ensures ValidConfig(c) && c.copy == copy && c.conv == conv && c.stream == stream
    ensures c.mtu == 1400 && c.sndWnd == 32 && c.rcvWnd == (if copy.Basic? then 32 else 128)
    ensures c.nodelay == 0 && c.interval == 100 && c.minrto == 100 && c.fastresend == 0 && !c.nocwnd
    ensures c.fastlimit == 5 && c.deadLink == 20
  {
    Config(copy, conv, 1400, 1376, 32, if copy.Basic? then 32 else 128, 0, 100, 100, 0, 5, false, stream, 20)
  }

  /** ikcp_setmtu: the new configuration and the value returned. */
  function SetMtu(c: Config, mtu: int): (r: (Config, int))
    requires ValidConfig(c) && mtu < HALF
    ensures ValidConfig(r.0)
    ensures mtu < 50 ==> r == (c, -1)
    ensures mtu >= 50 ==> r == (c.(mtu := mtu, mss := mtu - 24), 0)
  {
    if mtu < 50 then (c, -1) else (c.(mtu := mtu, mss := mtu - OVERHEAD), 0)
  }

  /** ikcp_wndsize; only the second copy keeps a lower bound on rcv_wnd. */
  function SetWindows(c: Config, sndWnd: int, rcvWnd: int): (d: Config)
    requires ValidConfig(c) && sndWnd < HALF && rcvWnd < HALF
    ensures ValidConfig(d) && d == c.(sndWnd := d.sndWnd, rcvWnd := d.rcvWnd)
    ensures d.sndWnd == (if sndWnd > 0 then sndWnd else c.sndWnd)
    ensures rcvWnd <= 0 ==> d.rcvWnd == c.rcvWnd
    ensures rcvWnd > 0 ==> d.rcvWnd == if c.copy.Extended? && rcvWnd < 128 then 128 else rcvWnd
  {
    var c1 := if sndWnd > 0 then c.(sndWnd := sndWnd) else c;
    if rcvWnd > 0 then c1.(rcvWnd := if c.copy.Basic? then rcvWnd else Max(rcvWnd, WND_RCV_EXT)) else c1
  }

  /** ikcp_nodelay; a negative argument leaves its field alone. */
  function SetNoDelay(c: Config, nodelay: int, interval: int, resend: int, nc: int): (d: Config)
    requires ValidConfig(c) && resend < HALF
    ensures ValidConfig(d)
    ensures d == c.(nodelay := d.nodelay, minrto := d.minrto, interval := d.interval, fastresend := d.fastresend, nocwnd := d.nocwnd)
    ensures nodelay < 0 ==> d.nodelay == c.nodelay && d.minrto == c.minrto
    ensures nodelay >= 0 ==> d.nodelay == nodelay && d.minrto == (if nodelay == 0 then 100 else 30)
    ensures interval < 0 ==> d.interval == c.interval
    ensures interval >= 0 ==> d.interval == if interval < 10 then 10 else if interval > 5000 then 5000 else interval
    ensures d.fastresend == (if resend < 0 then c.fastresend else resend)
    ensures nc < 0 ==> d.nocwnd == c.nocwnd
    ensures nc >= 0 ==> (d.nocwnd <==> nc != 0)
  {
    var c1 := if nodelay >= 0 then c.(nodelay := nodelay, minrto := if nodelay != 0 then 30 else 100) else c;
    var c2 := if interval >= 0 then c1.(interval := Bound(10, interval, 5000)) else c1;
    var c3 := if resend >= 0 then c2.(fastresend := resend) else c2;
    if nc >= 0 then c3.(nocwnd := nc != 0) else c3
  }

  /** A piece of a message; frg counts down to 0, the last piece. */
  datatype Frag = Frag(frg: byte, data: seq<byte>)

  /** A segment in snd_buf.  Its ts, wnd and una are set anew by every
      transmission, so they are not kept between two of them. */
  datatype SndSeg = SndSeg(sn: int, frag: Frag, resendts: int, rto: u32, fastack: u32, xmit: u32)

  /** A segment in rcv_buf. */
  datatype RcvSeg = RcvSeg(sn: int, frag: Frag)

  datatype Ack = Ack(sn: int, ts: int)

  /** One encoded segment: a 24-byte header and its payload. */
  datatype Wire = Wire(conv: u32, cmd: byte, frg: byte, wnd: u16, ts: int, sn: int, una: int, data: seq<byte>)

  /** What one call of the output callback carries. */
  type Datagram = seq<Wire>

  datatype Sender = Sender(una: int, nxt: int, queue: seq<Frag>, buf: seq<SndSeg>)
  datatype Receiver = Receiver(nxt: int, buf: seq<RcvSeg>, queue: seq<Frag>, acks: seq<Ack>)
  datatype Congestion = Congestion(cwnd: u32, ssthresh: u32, incr: u32, rmtWnd: u32)
  datatype Rtt = Rtt(srtt: int, rttval: int, rto: u32)
  datatype Probe = Probe(ask: bool, tell: bool, ts: int, wait: u32)
  datatype Clock = Clock(current: int, tsFlush: int, updated: bool)

  datatype Pcb = Pcb(cfg: Config, snd: Sender, rcv: Receiver, cong: Congestion,
                     rtt: Rtt, probe: Probe, clock: Clock, dead: bool)

  /** ikcp_create */
  function Create(cfg: Config): (c: Pcb)
    ensures c.cong == Congestion(0, 2, 0, if cfg.copy.Extended? then 128 else 32) && c.rtt == Rtt(0, 0, 200)
    ensures c.clock == Clock(0, 100, false) && !c.dead && c.snd.nxt == c.rcv.nxt == 0 && c.snd.queue == c.rcv.queue == []
  {
    Pcb(cfg, Sender(0, 0, [], []), Receiver(0, [], [], []),
        Congestion(0, THRESH_MIN, 0, if cfg.copy.Basic? then 32 else 128), Rtt(0, 0, 200),
        Probe(false, false, 0, 0), Clock(0, 100, false), false)
  }
}
