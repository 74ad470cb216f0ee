/** Every operation of ikcp.c as a function on values.  The class in Kcp.dfy is
    proved to compute these functions with m == Wrapping; the protocol theorems
    are about them with m == Exact; Refinement.dfy and TimeRun.dfy connect the modes. */
module KcpSpec {
  import opened Serial
  import opened KcpTypes

  // ---------------------------------------------------------------- sending

  /** The fragment loop of ikcp_send: count pieces of at most mss bytes. */
  function Cut(mss: nat, data: seq<byte>, count: nat, stream: bool): (r: seq<Frag>)
    requires count <= 256
    ensures |r| == count
  {
    if count == 0 then []
    else
      var size := Min(|data|, mss);
      [Frag(if stream then 0 else count - 1, data[..size])] + Cut(mss, data[size..], count - 1, stream)
  }

  function FragCount(mss: nat, len: nat): nat
    requires mss > 0
  {
    if len <= mss then 1 else (len + mss - 1) / mss
  }

  predicate TooManyFrags(copy: Copy, count: nat) {
    match copy
    case Basic => count > 255
    case Extended => count >= WND_RCV_EXT
  }

  /** How many bytes of a stream-mode send go into the last queued segment. */
  function StreamExtend(cfg: Config, queue: seq<Frag>, msg: seq<byte>): (n: nat)
    ensures n <= |msg|
    ensures n > 0 ==> queue != []
  {
    if cfg.stream && queue != [] && |queue[|queue| - 1].data| < cfg.mss
    then Min(|msg|, cfg.mss - |queue[|queue| - 1].data|)
    else 0
  }

  function StreamAppend(cfg: Config, queue: seq<Frag>, msg: seq<byte>): (q: seq<Frag>)
    ensures |q| == |queue|
  {
    if cfg.stream && queue != [] && |queue[|queue| - 1].data| < cfg.mss
    then queue[..|queue| - 1] + [Frag(0, queue[|queue| - 1].data + msg[..StreamExtend(cfg, queue, msg)])]
    else queue
  }

  datatype SendResult = SendResult(queue: seq<Frag>, ret: int)

  /** ikcp_send */
  function Send(cfg: Config, queue: seq<Frag>, msg: seq<byte>): SendResult
    requires cfg.mss > 0
  {
    var extend := StreamExtend(cfg, queue, msg);
    var queue1 := StreamAppend(cfg, queue, msg);
    var rest := msg[extend..];
    var count := FragCount(cfg.mss, |rest|);
    if cfg.stream && rest == [] then
      SendResult(queue1, if cfg.copy.Basic? then 0 else extend)
    else if TooManyFrags(cfg.copy, count) then
      SendResult(queue1, if cfg.copy.Extended? && cfg.stream && extend > 0 then extend else -2)
    else
      SendResult(queue1 + Cut(cfg.mss, rest, count, cfg.stream), if cfg.copy.Basic? then 0 else |msg|)
  }

  // -------------------------------------------------------------- receiving

  /** The bytes up to and including the first fragment with frg == 0. */
  function HeadBytes(queue: seq<Frag>): seq<byte> {
    if queue == [] then []
    else if queue[0].frg == 0 then queue[0].data
    else queue[0].data + HeadBytes(queue[1..])
  }

  /** How many fragments that is. */
  function HeadCount(queue: seq<Frag>): (n: nat)
    ensures n <= |queue|
    ensures queue != [] ==> n > 0
  {
    if queue == [] then 0
    else if queue[0].frg == 0 then 1
    else 1 + HeadCount(queue[1..])
  }

  /** ikcp_peeksize */
  function PeekSize(queue: seq<Frag>): int {
    if queue == [] then -1
    else if queue[0].frg == 0 then |queue[0].data|
    else if |queue| < queue[0].frg + 1 then -1
    else |HeadBytes(queue)|
  }

  /** The loop that moves in-order segments from rcv_buf to rcv_queue. */
  function MoveReady(m: Mode, r: Receiver, wnd: nat): Receiver
    decreases |r.buf|
  {
    if r.buf != [] && r.buf[0].sn == r.nxt && |r.queue| < wnd
    then MoveReady(m, r.(buf := r.buf[1..], queue := r.queue + [r.buf[0].frag], nxt := Norm(m, r.nxt + 1)), wnd)
    else r
  }

  datatype RecvResult = RecvResult(rcv: Receiver, tell: bool, ret: int, data: seq<byte>)

  /** ikcp_recv; len < 0 asks for a peek.  tell: IKCP_ASK_TELL has to be set. */
  function Recv(m: Mode, r: Receiver, wnd: nat, len: int): RecvResult {
    if r.queue == [] then RecvResult(r, false, -1, [])
    else
      var peek := PeekSize(r.queue);
      if peek < 0 then RecvResult(r, false, -2, [])
      else if peek > (if len < 0 then -len else len) then RecvResult(r, false, -3, [])
      else
        var data := HeadBytes(r.queue);
        var r1 := if len < 0 then r else r.(queue := r.queue[HeadCount(r.queue)..]);
        var r2 := MoveReady(m, r1, wnd);
        RecvResult(r2, |r.queue| >= wnd && |r2.queue| < wnd, |data|, data)
  }

  /** The insertion of ikcp_parse_data, scanning rcv_buf from its tail. */
  function Insert(m: Mode, buf: seq<RcvSeg>, seg: RcvSeg): seq<RcvSeg> {
    if buf == [] then [seg]
    else
      var last := buf[|buf| - 1];
      if last.sn == seg.sn then buf
      else if Diff(m, seg.sn, last.sn) > 0 then buf + [seg]
      else Insert(m, buf[..|buf| - 1], seg) + [last]
  }

  /** ikcp_parse_data */
  function ParseData(m: Mode, r: Receiver, wnd: nat, seg: RcvSeg): Receiver {
    if Diff(m, seg.sn, Norm(m, r.nxt + wnd)) >= 0 || Diff(m, seg.sn, r.nxt) < 0 then r
    else MoveReady(m, r.(buf := Insert(m, r.buf, seg)), wnd)
  }

  /** The IKCP_CMD_PUSH branch of ikcp_input. */
  function ReceivePush(m: Mode, r: Receiver, wnd: nat, w: Wire): Receiver {
    if Diff(m, w.sn, Norm(m, r.nxt + wnd)) >= 0 then r
    else
      var r1 := r.(acks := r.acks + [Ack(w.sn, w.ts)]);
      if Diff(m, w.sn, r.nxt) < 0 then r1
      else ParseData(m, r1, wnd, RcvSeg(w.sn, Frag(w.frg, w.data)))
  }

  // ------------------------------------------------------- acknowledgements

  /** ikcp_shrink_buf */
  function ShrinkBuf(s: Sender): Sender {
    s.(una := if s.buf == [] then s.nxt else s.buf[0].sn)
  }

  /** ikcp_parse_una */
  function ParseUna(m: Mode, buf: seq<SndSeg>, una: int): seq<SndSeg> {
    if buf != [] && Diff(m, una, buf[0].sn) > 0 then ParseUna(m, buf[1..], una) else buf
  }

  predicate InFlight(m: Mode, s: Sender, sn: int) {
    Diff(m, sn, s.una) >= 0 && Diff(m, sn, s.nxt) < 0
  }

  function RemoveAcked(m: Mode, buf: seq<SndSeg>, sn: int): seq<SndSeg> {
    if buf == [] then []
    else if sn == buf[0].sn then buf[1..]
    else if Diff(m, sn, buf[0].sn) < 0 then buf
    else [buf[0]] + RemoveAcked(m, buf[1..], sn)
  }

  /** ikcp_parse_ack */
  function ParseAck(m: Mode, s: Sender, sn: int): Sender {
    if InFlight(m, s, sn) then s.(buf := RemoveAcked(m, s.buf, sn)) else s
  }

  function CountSkipped(m: Mode, buf: seq<SndSeg>, sn: int): seq<SndSeg> {
    if buf == [] || Diff(m, sn, buf[0].sn) < 0 then buf
    else if sn != buf[0].sn then [buf[0].(fastack := Wrap32(buf[0].fastack + 1))] + CountSkipped(m, buf[1..], sn)
    else [buf[0]] + CountSkipped(m, buf[1..], sn)
  }

  /** ikcp_parse_fastack */
  function ParseFastack(m: Mode, s: Sender, sn: int): Sender {
    if InFlight(m, s, sn) then s.(buf := CountSkipped(m, s.buf, sn)) else s
  }

  function Abs(x: int): nat {
    if x < 0 then -x else x
  }

  /** ikcp_update_ack: int arithmetic has 32 bits, _imax_ and _ibound_ are unsigned. */
  function UpdateAck(cfg: Config, t: Rtt, rtt: nat): Rtt {
    var srtt := if t.srtt == 0 then rtt else Max(TruncDiv(Int32(Int32(7 * t.srtt) + rtt), 8), 1);
    var rttval := if t.srtt == 0 then rtt / 2 else Int32(TruncDiv(Int32(3 * t.rttval) + Abs(Int32(rtt - t.srtt)), 4));
    var rto := Wrap32(srtt + Max(cfg.interval, Wrap32(4 * rttval)));
    Rtt(srtt, rttval, Wrap32(Bound(cfg.minrto, rto, RTO_MAX)))
  }

  // ------------------------------------------------------------------ input

  /** The send side: every segment carries una; an ack also names one segment. */
  function InputSnd(m: Mode, s: Sender, w: Wire): Sender {
    var s1 := ShrinkBuf(s.(buf := ParseUna(m, s.buf, w.una)));
    if w.cmd == CMD_ACK then ShrinkBuf(ParseAck(m, s1, w.sn)) else s1
  }

  function InputRcv(m: Mode, r: Receiver, wnd: nat, w: Wire): Receiver {
    if w.cmd == CMD_PUSH then ReceivePush(m, r, wnd, w) else r
  }

  /** Only an ack whose echoed time stamp is not in the future is a sample. */
  function InputRtt(m: Mode, s: Pcb, w: Wire): Rtt {
    var rtt := Since(m, s.clock.current, w.ts);
    if w.cmd == CMD_ACK && rtt >= 0 then UpdateAck(s.cfg, s.rtt, rtt) else s.rtt
  }

  /** The state of the loop of ikcp_input: flag and maxack are its locals. */
  datatype InCtx = InCtx(s: Pcb, flag: bool, maxack: int)

  function InputMaxAck(m: Mode, c: InCtx, w: Wire): int {
    if w.cmd != CMD_ACK || (c.flag && Diff(m, w.sn, c.maxack) <= 0) then c.maxack else w.sn
  }

  /** What one segment does to the control block. */
  function InputState(m: Mode, s: Pcb, w: Wire): Pcb {
    s.(snd := InputSnd(m, s.snd, w),
       rcv := InputRcv(m, s.rcv, s.cfg.rcvWnd, w),
       cong := s.cong.(rmtWnd := w.wnd),
       rtt := InputRtt(m, s, w),
       probe := s.probe.(tell := s.probe.tell || w.cmd == CMD_WASK))
  }

  /** One turn of the loop of ikcp_input. */
  function InputWire(m: Mode, c: InCtx, w: Wire): InCtx {
    InCtx(InputState(m, c.s, w), c.flag || w.cmd == CMD_ACK, InputMaxAck(m, c, w))
  }

  function InputWires(m: Mode, c: InCtx, ws: seq<Wire>): InCtx
    decreases |ws|
  {
    if ws == [] then c else InputWires(m, InputWire(m, c, ws[0]), ws[1..])
  }

  /** The congestion-window growth at the end of ikcp_input. */
  function Grow(cfg: Config, c: Congestion): Congestion {
    if c.cwnd >= c.rmtWnd then c
    else
      var g := if c.cwnd < c.ssthresh then c.(cwnd := Wrap32(c.cwnd + 1), incr := Wrap32(c.incr + cfg.mss))
               else GrowSlowly(cfg.copy, cfg.mss, c.(incr := if c.incr < cfg.mss then Wrap32(cfg.mss) else c.incr));
      if g.cwnd > g.rmtWnd then g.(cwnd := g.rmtWnd, incr := Wrap32(g.rmtWnd * cfg.mss)) else g
  }

  function GrowSlowly(copy: Copy, mss: nat, c: Congestion): Congestion {
    var incr := if c.incr == 0 then 0 else Wrap32(c.incr + Wrap32(mss * mss) / c.incr + mss / 16);
    if Wrap32(Wrap32(c.cwnd + 1) * mss) <= incr && mss > 0 then
      c.(incr := incr, cwnd := if copy.Basic? then Wrap32(c.cwnd + 1) else Wrap32(Wrap32(incr + mss - 1) / mss))
    else c.(incr := incr)
  }

  /** The end of ikcp_input, skipped after a parse error: fast acks and window growth. */
  function FinishInput(m: Mode, c: InCtx, prevUna: int, ok: bool): Pcb {
    if !ok then c.s
    else
      var snd := if c.flag then ParseFastack(m, c.s.snd, c.maxack) else c.s.snd;
      var cong := if Diff(m, snd.una, prevUna) > 0 then Grow(c.s.cfg, c.s.cong) else c.s.cong;
      c.s.(snd := snd, cong := cong)
  }

  /** ikcp_input on the segments found in the bytes; ok: no parse error. */
  function Input(m: Mode, s: Pcb, ws: seq<Wire>, ok: bool): Pcb {
    FinishInput(m, InputWires(m, InCtx(s, false, 0), ws), s.snd.una, ok)
  }

  // ------------------------------------------------------------------ flush

  /** ikcp_wnd_unused, as truncated into the 16-bit header field. */
  function Unused(s: Pcb): u16 {
    if |s.rcv.queue| < s.cfg.rcvWnd then Wrap16(s.cfg.rcvWnd - |s.rcv.queue|) else 0
  }

  function Control(s: Pcb, cmd: byte, sn: int, ts: int): Wire {
    Wire(s.cfg.conv, cmd, 0, Unused(s), ts, sn, s.rcv.nxt, [])
  }

  function AckWires(s: Pcb): (ws: seq<Wire>)
    ensures |ws| == |s.rcv.acks|
  {
    seq(|s.rcv.acks|, i requires 0 <= i < |s.rcv.acks| => Control(s, CMD_ACK, s.rcv.acks[i].sn, s.rcv.acks[i].ts))
  }

  /** The probe timer, run while the remote window is zero. */
  function ProbeTimer(m: Mode, p: Probe, rmtWnd: u32, current: int): Probe {
    if rmtWnd != 0 then p.(ts := 0, wait := 0)
    else if p.wait == 0 then p.(wait := PROBE_INIT, ts := Clocked(m, current + PROBE_INIT))
    else if Since(m, current, p.ts) >= 0 then
      var w := if p.wait < PROBE_INIT then PROBE_INIT else p.wait;
      var wait := Min(Wrap32(w + w / 2), PROBE_LIMIT);
      p.(wait := wait, ts := Clocked(m, current + wait), ask := true)
    else p
  }

  /** A probe reuses the scratch segment, so it carries the last ack's sn and ts. */
  function ProbeWire(s: Pcb, cmd: byte): Wire {
    var n := |s.rcv.acks|;
    if n == 0 then Control(s, cmd, 0, 0) else Control(s, cmd, s.rcv.acks[n - 1].sn, s.rcv.acks[n - 1].ts)
  }

  function ProbeWires(s: Pcb, p: Probe): seq<Wire> {
    (if p.ask then [ProbeWire(s, CMD_WASK)] else []) + (if p.tell then [ProbeWire(s, CMD_WINS)] else [])
  }

  /** The window new segments must fit in. */
  function SendWindow(s: Pcb): (w: nat)
    ensures w <= s.cfg.sndWnd
  {
    var w := Min(s.cfg.sndWnd, s.cong.rmtWnd);
    if s.cfg.nocwnd then w else Min(s.cong.cwnd, w)
  }

  /** The loop that numbers queued fragments and moves them to snd_buf. */
  function Admit(m: Mode, s: Sender, window: nat, current: int, rto: u32): Sender
    decreases |s.queue|
  {
    if Diff(m, s.nxt, Norm(m, s.una + window)) < 0 && s.queue != []
    then Admit(m, s.(queue := s.queue[1..], nxt := Norm(m, s.nxt + 1),
                     buf := s.buf + [SndSeg(s.nxt, s.queue[0], current, rto, 0, 0)]), window, current, rto)
    else s
  }

  datatype Verdict = Keep | First | Timeout | Fast

  function Resent(cfg: Config): u32 {
    if cfg.fastresend > 0 then Wrap32(cfg.fastresend) else 0xffff_ffff
  }

  /** Whether a segment is transmitted by this flush, and why. */
  function Judge(m: Mode, cfg: Config, current: int, g: SndSeg): Verdict {
    if g.xmit == 0 then First
    else if Since(m, current, g.resendts) >= 0 then Timeout
    else if g.fastack >= Resent(cfg) &&
            (cfg.copy.Basic? || Signed32(g.xmit) <= cfg.fastlimit || cfg.fastlimit <= 0) then Fast
    else Keep
  }

  /** The retransmission timeout after a timeout. */
  function Backoff(cfg: Config, rxRto: u32, rto: u32): u32 {
    match cfg.copy
    case Basic => Wrap32(rto + (if cfg.nodelay == 0 then rxRto else rxRto / 2))
    case Extended =>
      if cfg.nodelay == 0 then Wrap32(rto + Max(rto, rxRto))
      else Wrap32(rto + TruncDiv(if cfg.nodelay < 2 then Signed32(rto) else Signed32(rxRto), 2))
  }

  /** The segment after this flush has looked at it. */
  function Touch(m: Mode, cfg: Config, current: int, rxRto: u32, g: SndSeg): SndSeg {
    match Judge(m, cfg, current, g)
    case Keep => g
    case First =>
      g.(xmit := 1, rto := rxRto, resendts := Clocked(m, current + rxRto + (if cfg.nodelay == 0 then rxRto / 8 else 0)))
    case Timeout =>
      var rto := Backoff(cfg, rxRto, g.rto);
      g.(xmit := Wrap32(g.xmit + 1), rto := rto, resendts := Clocked(m, current + rto))
    case Fast =>
      g.(xmit := Wrap32(g.xmit + 1), fastack := 0, resendts := Clocked(m, current + g.rto))
  }

  function TouchAll(m: Mode, cfg: Config, current: int, rxRto: u32, buf: seq<SndSeg>): (r: seq<SndSeg>)
    ensures |r| == |buf|
  {
    seq(|buf|, i requires 0 <= i < |buf| => Touch(m, cfg, current, rxRto, buf[i]))
  }

  function PushWire(s: Pcb, g: SndSeg): Wire {
    Wire(s.cfg.conv, CMD_PUSH, g.frag.frg, Unused(s), s.clock.current, g.sn, s.rcv.nxt, g.frag.data)
  }

  /** The segments this flush transmits, in snd_buf order. */
  function PushWires(m: Mode, s: Pcb, buf: seq<SndSeg>): seq<Wire> {
    if buf == [] then []
    else
      var g := buf[|buf| - 1];
      PushWires(m, s, buf[..|buf| - 1]) + (if Judge(m, s.cfg, s.clock.current, g).Keep? then [] else [PushWire(s, g)])
  }

  /** Some segment of buf gets verdict v. */
  predicate HasVerdict(m: Mode, cfg: Config, current: int, buf: seq<SndSeg>, v: Verdict) {
    exists i :: 0 <= i < |buf| && Judge(m, cfg, current, buf[i]) == v
  }

  /** Some transmitted segment has reached dead_link transmissions. */
  predicate LinkDies(m: Mode, cfg: Config, current: int, buf: seq<SndSeg>) {
    exists i :: 0 <= i < |buf| && !Judge(m, cfg, current, buf[i]).Keep? && Wrap32(buf[i].xmit + 1) >= cfg.deadLink
  }

  /** The congestion state after a flush that saw a fast resend or a timeout. */
  function AfterFlush(cfg: Config, c: Congestion, change: bool, lost: bool, inflight: u32, window: nat): Congestion {
    var c1 :=
      if change then
        var ssthresh := Max(inflight / 2, THRESH_MIN);
        var cwnd := Wrap32(ssthresh + Resent(cfg));
        c.(ssthresh := ssthresh, cwnd := cwnd, incr := Wrap32(cwnd * cfg.mss))
      else c;
    var c2 := if lost then c1.(ssthresh := Wrap32(Max(window / 2, THRESH_MIN)), cwnd := 1, incr := Wrap32(cfg.mss)) else c1;
    if c2.cwnd < 1 then c2.(cwnd := 1, incr := Wrap32(cfg.mss)) else c2
  }

  datatype Flushed = Flushed(s: Pcb, wires: seq<Wire>)

  /** The send side after numbering new segments. */
  function Admitted(m: Mode, s: Pcb): Sender {
    Admit(m, s.snd, SendWindow(s), s.clock.current, s.rtt.rto)
  }

  /** Everything a flush encodes, in order. */
  function FlushWires(m: Mode, s: Pcb, snd: Sender): seq<Wire> {
    AckWires(s) + ProbeWires(s, ProbeTimer(m, s.probe, s.cong.rmtWnd, s.clock.current)) + PushWires(m, s, snd.buf)
  }

  function FlushCong(m: Mode, s: Pcb, snd: Sender): Congestion {
    AfterFlush(s.cfg, s.cong,
               HasVerdict(m, s.cfg, s.clock.current, snd.buf, Fast), HasVerdict(m, s.cfg, s.clock.current, snd.buf, Timeout),
               Wrap32(snd.nxt - snd.una), SendWindow(s))
  }

  /** The state after a flush that numbered the segments up to snd.nxt. */
  function FlushState(m: Mode, s: Pcb, snd: Sender): Pcb {
    s.(snd := snd.(buf := TouchAll(m, s.cfg, s.clock.current, s.rtt.rto, snd.buf)),
       rcv := s.rcv.(acks := []),
       cong := FlushCong(m, s, snd),
       probe := ProbeTimer(m, s.probe, s.cong.rmtWnd, s.clock.current).(ask := false, tell := false),
       dead := s.dead || LinkDies(m, s.cfg, s.clock.current, snd.buf))
  }

  /** ikcp_flush: the new state and the segments encoded.  Packing.dfy cuts them
      into datagrams.  Only the second copy waits for the first ikcp_update. */
  function Flush(m: Mode, s: Pcb): Flushed {
    if s.cfg.copy.Extended? && !s.clock.updated then Flushed(s, [])
    else Flushed(FlushState(m, s, Admitted(m, s)), FlushWires(m, s, Admitted(m, s)))
  }

  // ------------------------------------------------------------------ clock

  /** The part of ikcp_update before the flush: the new clock, and whether to flush. */
  function Tick(m: Mode, clock: Clock, interval: nat, current: int): (Clock, bool) {
    var ts0 := if clock.updated then clock.tsFlush else current;
    var slap0 := Since(m, current, ts0);
    var reset := slap0 >= 10000 || slap0 < -10000;
    var ts1 := if reset then current else ts0;
    var slap := if reset then 0 else slap0;
    if slap >= 0 then
      var ts2 := Clocked(m, ts1 + interval);
      (Clock(current, if Since(m, current, ts2) >= 0 then Clocked(m, current + interval) else ts2, true), true)
    else (Clock(current, ts1, true), false)
  }

  /** The state after the clock part of ikcp_update; the time it is given is truncated
      to what the machine stores. */
  function Ticked(m: Mode, s: Pcb, now: int): Pcb {
    s.(clock := Tick(m, s.clock, s.cfg.interval, Clocked(m, now)).0)
  }

  /** Whether ikcp_update calls ikcp_flush. */
  predicate FlushDue(m: Mode, s: Pcb, now: int) {
    Tick(m, s.clock, s.cfg.interval, Clocked(m, now)).1
  }

  /** ikcp_update */
  function Update(m: Mode, s: Pcb, now: int): Flushed {
    if FlushDue(m, s, now) then Flush(m, Ticked(m, s, now)) else Flushed(Ticked(m, s, now), [])
  }

  /** The smallest time to a retransmission, or 0 if one is due now. */
  function NextResend(m: Mode, buf: seq<SndSeg>, current: int, least: int): int {
    if buf == [] then least
    else
      var d := Since(m, buf[0].resendts, current);
      if d <= 0 then 0 else NextResend(m, buf[1..], current, Min(d, least))
  }

  /** ikcp_check */
  function Check(m: Mode, clock: Clock, interval: nat, buf: seq<SndSeg>, current: int): int {
    var late := Since(m, current, clock.tsFlush);
    if !clock.updated || late >= 0 || late < -10000 then current
    else
      var packet := NextResend(m, buf, current, 0x7fff_ffff);
      if packet == 0 then current
      else Clocked(m, current + Min(Min(packet, Since(m, clock.tsFlush, current)), interval))
  }
}
