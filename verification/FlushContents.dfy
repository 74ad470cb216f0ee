/** What one flush does, in the terms of the header fields and of the segments' own fields:
    which fragments it numbers, what it puts on the wire, and what it leaves behind. */
module FlushContents {
  import opened Serial
  import opened KcpTypes
  import opened KcpSpec
  import opened Endpoint
  import opened Refinement
  import opened AnyBytes
  import opened Datagrams

  /** ikcp_flush runs to its end: the second copy waits for the first ikcp_update. */
  predicate Runs(c: Pcb) {
    c.cfg.copy.Basic? || c.clock.updated
  }

  // ------------------------------------------------------------- what is numbered

  /** w is the smallest of the three windows, of which nocwnd drops the congestion window. */
  predicate OpenWindow(c: Pcb, w: nat) {
    && w <= c.cfg.sndWnd && w <= c.cong.rmtWnd && (c.cfg.nocwnd || w <= c.cong.cwnd)
    && (w == c.cfg.sndWnd || w == c.cong.rmtWnd || (!c.cfg.nocwnd && w == c.cong.cwnd))
  }

  /** How many of len queued fragments a window with inflight segments in it takes. */
  function Room(len: nat, window: int, inflight: int): (k: nat)
    ensures k <= len
  {
    if window <= inflight then 0 else if len < window - inflight then len else window - inflight
  }

  lemma {:induction false} AdmitsExactly(s: Sender, window: nat, current: int, rto: u32)
    ensures var t := Admit(Exact, s, window, current, rto);
            var k := Room(|s.queue|, window, s.nxt - s.una);
            && t.una == s.una && t.nxt == s.nxt + k && t.queue == s.queue[k..]
            && t.buf == s.buf + Number(s.nxt, s.queue[..k], current, rto)
    decreases |s.queue|
  {
    var k := Room(|s.queue|, window, s.nxt - s.una);
    if s.nxt < s.una + window && s.queue != [] {
      var g := SndSeg(s.nxt, s.queue[0], current, rto, 0, 0);
      var s1 := s.(queue := s.queue[1..], nxt := s.nxt + 1, buf := s.buf + [g]);
      AdmitsExactly(s1, window, current, rto);
      assert s.queue[1..][k - 1..] == s.queue[k..];
      assert Number(s.nxt, s.queue[..k], current, rto) == [g] + Number(s1.nxt, s1.queue[..k - 1], current, rto);
    } else {
      assert s.buf == s.buf + Number(s.nxt, s.queue[..0], current, rto);
    }
  }

  /** The send side a flush transmits from: k more segments, numbered on from snd_nxt. */
  ghost predicate Numbered(c: Sender, t: Sender, k: nat, current: int, rto: u32) {
    && k <= |c.queue| && t.una == c.una && t.nxt == Wrap32(c.nxt + k) && t.queue == c.queue[k..]
    && |t.buf| == |c.buf| + k && t.buf[..|c.buf|] == c.buf
    && forall i :: 0 <= i < k ==> t.buf[|c.buf| + i] == SndSeg(Wrap32(c.nxt + i), c.queue[i], current, rto, 0, 0)
  }

  lemma NumberedWraps(s: Sender, k: nat, current: int, rto: u32)
    requires k <= |s.queue|
    ensures Numbered(WrapSnd(s), WrapSnd(s.(queue := s.queue[k..], nxt := s.nxt + k,
                                            buf := s.buf + Number(s.nxt, s.queue[..k], current, rto))), k, current, rto)
  {
    var t := WrapSegs(s.buf + Number(s.nxt, s.queue[..k], current, rto));
    assert t[..|s.buf|] == WrapSegs(s.buf);
    WrapShift(s.nxt + k, Wrap32(s.nxt) + k, s.nxt / 0x1_0000_0000);
    forall i | 0 <= i < k
      ensures t[|s.buf| + i] == SndSeg(Wrap32(Wrap32(s.nxt) + i), s.queue[i], current, rto, 0, 0)
    {
      WrapShift(s.nxt + i, Wrap32(s.nxt) + i, s.nxt / 0x1_0000_0000);
    }
  }

  lemma AdmitsWrapped(s: Sender, wnd: nat, w: nat, current: int, rto: u32)
    requires SndOk(s, wnd) && w <= wnd < HALF
    ensures var c := WrapSnd(s);
            Numbered(c, Admit(Wrapping, c, w, current, rto), Room(|c.queue|, w, TimeDiff(c.nxt, c.una)), current, rto)
  {
    hide Numbered;
    AdmitsExactly(s, w, current, rto);
    AdmitWraps(s, wnd, w, current, rto);
    NearDiff(s.nxt, s.una);
    NumberedWraps(s, Room(|s.queue|, w, s.nxt - s.una), current, rto);
  }

  lemma AdmittedIs(c: Pcb, w: nat)
    requires U32Ok(c) && OpenWindow(c, w)
    ensures Numbered(c.snd, Admitted(Wrapping, c), Room(|c.snd.queue|, w, TimeDiff(c.snd.nxt, c.snd.una)), c.clock.current, c.rtt.rto)
  {
    hide Numbered, TimeDiff, Admit, Room, SndOk, WrapSnd, WrapRcv;
    var p :| EndOk(p) && c == WrapPcb(p);
    assert SendWindow(c) == w;
    AdmitsWrapped(p.snd, p.cfg.sndWnd, w, c.clock.current, c.rtt.rto);
  }

  /** Transmitting a segment changes neither its number nor its data. */
  lemma VisitKeeps(cfg: Config, now: int, rxRto: u32, g: SndSeg)
    ensures var h := Touch(Wrapping, cfg, now, rxRto, g);
            h.sn == g.sn && h.frag == g.frag && (g.xmit == 0 ==> h.xmit == 1 && h.rto == rxRto)
  {
  }

  /** The segments a flush leaves are those it visited. */
  lemma FlushVisits(c: Pcb)
    requires Runs(c)
    ensures var s, t := Flush(Wrapping, c).s.snd, Admitted(Wrapping, c);
            && s == t.(buf := s.buf) && |s.buf| == |t.buf|
            && forall i :: 0 <= i < |s.buf| ==> s.buf[i] == Touch(Wrapping, c.cfg, c.clock.current, c.rtt.rto, t.buf[i])
  {
    hide FlushWires, FlushCong, LinkDies, ProbeTimer, Admitted, Touch;
  }

  lemma NumberedAt(c: Pcb, t: Sender, k: nat, i: nat)
    requires Numbered(c.snd, t, k, c.clock.current, c.rtt.rto)
    ensures t.una == c.snd.una && t.nxt == Wrap32(c.snd.nxt + k) && k <= |c.snd.queue| && t.queue == c.snd.queue[k..]
    ensures |t.buf| == |c.snd.buf| + k
    ensures i < |c.snd.buf| ==>
              var g := Touch(Wrapping, c.cfg, c.clock.current, c.rtt.rto, t.buf[i]);
              g.sn == c.snd.buf[i].sn && g.frag == c.snd.buf[i].frag
    ensures i < k ==>
              var g := Touch(Wrapping, c.cfg, c.clock.current, c.rtt.rto, t.buf[|c.snd.buf| + i]);
              g.sn == Wrap32(c.snd.nxt + i) && g.frag == c.snd.queue[i] && g.xmit == 1 && g.rto == c.rtt.rto
  {
    hide Touch;
    if i < |c.snd.buf| {
      assert t.buf[i] == t.buf[..|c.snd.buf|][i];
      VisitKeeps(c.cfg, c.clock.current, c.rtt.rto, t.buf[i]);
    }
    if i < k {
      assert t.buf[|c.snd.buf| + i] == SndSeg(Wrap32(c.snd.nxt + i), c.snd.queue[i], c.clock.current, c.rtt.rto, 0, 0);
      VisitKeeps(c.cfg, c.clock.current, c.rtt.rto, t.buf[|c.snd.buf| + i]);
    }
  }

  /** The flush numbers as many queued fragments as the smallest of its windows has room
      for, the oldest first, from snd_nxt on, and transmits each of them. */
  lemma FlushNumbers(c: Pcb, w: nat, i: nat)
    requires U32Ok(c) && Runs(c) && OpenWindow(c, w)
    ensures var s, k := Flush(Wrapping, c).s.snd, Room(|c.snd.queue|, w, TimeDiff(c.snd.nxt, c.snd.una));
            && s.una == c.snd.una && s.nxt == Wrap32(c.snd.nxt + k) && s.queue == c.snd.queue[k..]
            && |s.buf| == |c.snd.buf| + k
            && (i < |c.snd.buf| ==> s.buf[i].sn == c.snd.buf[i].sn && s.buf[i].frag == c.snd.buf[i].frag)
            && (i < k ==>
                  var g := s.buf[|c.snd.buf| + i];
                  g.sn == Wrap32(c.snd.nxt + i) && g.frag == c.snd.queue[i] && g.xmit == 1 && g.rto == c.rtt.rto)
  {
    AdmittedIs(c, w);
    FlushVisits(c);
    hide U32Ok, OpenWindow, TimeDiff, Flush, Admitted, Touch, Room, Numbered, Wrap32;
    var k := Room(|c.snd.queue|, w, TimeDiff(c.snd.nxt, c.snd.una));
    NumberedAt(c, Admitted(Wrapping, c), k, i);
  }

  // ------------------------------------------------------------ what is transmitted

  predicate TimedOut(now: int, g: SndSeg) {
    g.xmit > 0 && TimeDiff(now, g.resendts) >= 0
  }

  /** Acks have passed the segment often enough; without a fastresend setting that is the
      largest number the counter can hold. */
  predicate SkippedOften(cfg: Config, g: SndSeg) {
    && g.fastack >= (if cfg.fastresend > 0 then cfg.fastresend else 0xffff_ffff)
    && (cfg.copy.Basic? || cfg.fastlimit <= 0 || Signed32(g.xmit) <= cfg.fastlimit)
  }

  predicate GoesOut(cfg: Config, now: int, g: SndSeg) {
    g.xmit == 0 || TimedOut(now, g) || SkippedOften(cfg, g)
  }

  /** The header field that tells the peer how much of the receive window is free. */
  function FreeWindow(c: Pcb): int {
    (if |c.rcv.queue| < c.cfg.rcvWnd then c.cfg.rcvWnd - |c.rcv.queue| else 0) % 0x1_0000
  }

  lemma JudgedOut(cfg: Config, now: int, g: SndSeg)
    requires cfg.fastresend < HALF
    ensures !Judge(Wrapping, cfg, now, g).Keep? <==> GoesOut(cfg, now, g)
    ensures Judge(Wrapping, cfg, now, g).Timeout? <==> TimedOut(now, g)
    ensures Judge(Wrapping, cfg, now, g).Fast? <==> g.xmit > 0 && !TimedOut(now, g) && SkippedOften(cfg, g)
  {
    WrapsNot(cfg.fastresend);
  }

  /** Every segment that is no ack. */
  ghost predicate NoAckFrom(c: Pcb, ws: seq<Wire>) {
    forall w :: w in ws ==> w.cmd != 82 && w.conv == c.cfg.conv && w.una == c.rcv.nxt && w.wnd == FreeWindow(c)
  }

  lemma ProbesAndPushes(c: Pcb, pr: Probe, buf: seq<SndSeg>)
    ensures NoAckFrom(c, ProbeWires(c, pr)) && NoAckFrom(c, PushWires(Wrapping, c, buf))
  {
    hide Judge;
    PushWiresExact(Wrapping, c, buf);
  }

  /** Every segment a flush encodes tells the peer rcv_nxt and the free window.  The pending
      acks come first, in order, each with the number and the time stamp of the segment
      acked; none comes later. */
  lemma FlushAcks(c: Pcb)
    requires Runs(c)
    ensures var ws, n := Flush(Wrapping, c).wires, |c.rcv.acks|;
            && |ws| >= n
            && (forall w :: w in ws ==> w.conv == c.cfg.conv && w.una == c.rcv.nxt && w.wnd == FreeWindow(c))
            && (forall i :: 0 <= i < n ==> ws[i] == Wire(c.cfg.conv, 82, 0, FreeWindow(c), c.rcv.acks[i].ts, c.rcv.acks[i].sn, c.rcv.nxt, []))
            && (forall w :: w in ws[n..] ==> w.cmd != 82)
  {
    var a := AckWires(c);
    var b := ProbeWires(c, ProbeTimer(Wrapping, c.probe, c.cong.rmtWnd, c.clock.current));
    var p := PushWires(Wrapping, c, Admitted(Wrapping, c).buf);
    ProbesAndPushes(c, ProbeTimer(Wrapping, c.probe, c.cong.rmtWnd, c.clock.current), Admitted(Wrapping, c).buf);
    hide ProbeWires, PushWires, ProbeTimer, Admitted;
    var ws := Flush(Wrapping, c).wires;
    assert ws == a + (b + p);
    assert ws[|a|..] == b + p;
  }

  /** What a segment looks like on the wire, sent at time now. */
  predicate Carries(c: Pcb, g: SndSeg, w: Wire) {
    w == Wire(c.cfg.conv, 81, g.frag.frg, FreeWindow(c), c.clock.current, g.sn, c.rcv.nxt, g.frag.data)
  }

  /** The data segments a flush encodes are those of snd_buf that are new, have timed out or
      have been skipped often enough, and no others; they are stamped with the time of
      the flush. */
  lemma FlushSends(c: Pcb, w: Wire)
    requires Runs(c) && c.cfg.fastresend < HALF
    ensures w in Flush(Wrapping, c).wires && w.cmd == 81
       <==> exists g :: g in Admitted(Wrapping, c).buf && GoesOut(c.cfg, c.clock.current, g) && Carries(c, g, w)
  {
    var buf := Admitted(Wrapping, c).buf;
    PushWiresExact(Wrapping, c, buf);
    forall g | g in buf
      ensures !Judge(Wrapping, c.cfg, c.clock.current, g).Keep? <==> GoesOut(c.cfg, c.clock.current, g)
      ensures PushWire(c, g).cmd == 81 && (Carries(c, g, w) <==> w == PushWire(c, g))
    {
      JudgedOut(c.cfg, c.clock.current, g);
    }
    hide Judge, GoesOut, PushWires, Admitted, ProbeTimer, TimeDiff;
    assert Flush(Wrapping, c).wires == FlushWires(Wrapping, c, Admitted(Wrapping, c));
  }

  // -------------------------------------------------------------- what it leaves

  /** The timeout after one more timeout.  The first copy adds rx_rto, or half of it with
      nodelay.  The second doubles, or adds half of the segment's own timeout, or with
      nodelay 2 half of rx_rto, as signed values. */
  predicate BacksOff(cfg: Config, rxRto: u32, rto: u32, next: u32) {
    match cfg.copy
    case Basic => next == (rto + (if cfg.nodelay == 0 then rxRto else rxRto / 2)) % 0x1_0000_0000
    case Extended =>
      && (cfg.nodelay == 0 ==> next == (if rto >= rxRto then 2 * rto else rto + rxRto) % 0x1_0000_0000)
      && (cfg.nodelay == 1 && rto < 0x8000_0000 ==> next == rto + rto / 2)
      && (cfg.nodelay == 1 && rto >= 0x8000_0000 ==> next == rto - (0x1_0000_0000 - rto) / 2)
      && (cfg.nodelay >= 2 && rxRto < 0x8000_0000 ==> next == (rto + rxRto / 2) % 0x1_0000_0000)
  }

  /** What one flush makes of segment g of snd_buf. */
  predicate Visited(c: Pcb, g: SndSeg, h: SndSeg) {
    && h.sn == g.sn && h.frag == g.frag
    && (g.xmit == 0 ==>
          && h.xmit == 1 && h.rto == c.rtt.rto && h.fastack == g.fastack
          && h.resendts == Wrap32(c.clock.current + c.rtt.rto + (if c.cfg.nodelay == 0 then c.rtt.rto / 8 else 0)))
    && (TimedOut(c.clock.current, g) ==>
          && h.xmit == Wrap32(g.xmit + 1) && BacksOff(c.cfg, c.rtt.rto, g.rto, h.rto) && h.fastack == g.fastack
          && h.resendts == Wrap32(c.clock.current + h.rto))
    && (g.xmit > 0 && !TimedOut(c.clock.current, g) && SkippedOften(c.cfg, g) ==>
          h == g.(xmit := Wrap32(g.xmit + 1), fastack := 0, resendts := Wrap32(c.clock.current + g.rto)))
    && (!GoesOut(c.cfg, c.clock.current, g) ==> h == g)
  }

  lemma OneVisit(c: Pcb, g: SndSeg)
    requires c.cfg.fastresend < HALF
    ensures Visited(c, g, Touch(Wrapping, c.cfg, c.clock.current, c.rtt.rto, g))
  {
    hide TimedOut, SkippedOften, GoesOut, Judge, TimeDiff, BacksOff, Backoff;
    JudgedOut(c.cfg, c.clock.current, g);
    OneBackoff(c.cfg, c.rtt.rto, g.rto);
    OutWhen(c.cfg, c.clock.current, g);
  }

  lemma OutWhen(cfg: Config, now: int, g: SndSeg)
    ensures Judge(Wrapping, cfg, now, g).First? <==> g.xmit == 0
    ensures TimedOut(now, g) ==> g.xmit > 0
  {
  }

  lemma OneBackoff(cfg: Config, rxRto: u32, rto: u32)
    ensures BacksOff(cfg, rxRto, rto, Backoff(cfg, rxRto, rto))
  {
    if rto < 0x8000_0000 {
      WrapsNot(rto + rto / 2);
    } else {
      WrapsNot(rto - (0x1_0000_0000 - rto) / 2);
    }
  }

  /** Each segment of snd_buf, after a flush. */
  lemma FlushLeaves(c: Pcb, i: nat)
    requires Runs(c) && c.cfg.fastresend < HALF && i < |Admitted(Wrapping, c).buf|
    ensures i < |Flush(Wrapping, c).s.snd.buf|
    ensures Visited(c, Admitted(Wrapping, c).buf[i], Flush(Wrapping, c).s.snd.buf[i])
  {
    FlushVisits(c);
    OneVisit(c, Admitted(Wrapping, c).buf[i]);
  }

  // ------------------------------------------------------- the windows and the link

  ghost predicate SomeTimedOut(now: int, buf: seq<SndSeg>) {
    exists g :: g in buf && TimedOut(now, g)
  }

  ghost predicate SomeSkipped(cfg: Config, now: int, buf: seq<SndSeg>) {
    exists g :: g in buf && g.xmit > 0 && !TimedOut(now, g) && SkippedOften(cfg, g)
  }

  lemma Causes(cfg: Config, now: int, buf: seq<SndSeg>)
    requires cfg.fastresend < HALF
    ensures HasVerdict(Wrapping, cfg, now, buf, Timeout) <==> SomeTimedOut(now, buf)
    ensures HasVerdict(Wrapping, cfg, now, buf, Fast) <==> SomeSkipped(cfg, now, buf)
  {
    forall g
      ensures Judge(Wrapping, cfg, now, g).Timeout? <==> TimedOut(now, g)
      ensures Judge(Wrapping, cfg, now, g).Fast? <==> g.xmit > 0 && !TimedOut(now, g) && SkippedOften(cfg, g)
    {
      JudgedOut(cfg, now, g);
    }
    hide Judge, TimedOut, SkippedOften;
  }

  /** A timeout sets the congestion window back to one segment and the threshold to half of
      the window w the flush sent in.  A fast retransmission alone sets the threshold to half
      of what is in flight, and the window to fastresend above it.  Neither threshold is
      below 2.  Any other flush leaves all of it, but for a window of 0, which becomes 1. */
  predicate WindowAfter(cfg: Config, c: Congestion, lost: bool, skipped: bool, inflight: u32, w: nat, d: Congestion) {
    && d.rmtWnd == c.rmtWnd
    && (lost ==> d.cwnd == 1 && d.incr == Wrap32(cfg.mss) && d.ssthresh == (if w < 4 then 2 else w / 2))
    && (skipped && !lost ==>
          && d.ssthresh == (if inflight < 4 then 2 else inflight / 2)
          && d.cwnd == d.ssthresh + (if cfg.fastresend > 0 then cfg.fastresend else -1)
          && d.incr == Wrap32(d.cwnd * cfg.mss))
    && (!skipped && !lost && c.cwnd > 0 ==> d == c)
    && (!skipped && !lost && c.cwnd == 0 ==> d == c.(cwnd := 1, incr := Wrap32(cfg.mss)))
  }

  lemma WindowIs(cfg: Config, c: Congestion, lost: bool, skipped: bool, inflight: u32, w: nat)
    requires cfg.fastresend < HALF && w < HALF
    ensures WindowAfter(cfg, c, lost, skipped, inflight, w, AfterFlush(cfg, c, skipped, lost, inflight, w))
  {
    WrapsNot(cfg.fastresend);
    if skipped {
      var ssthresh := Max(inflight / 2, THRESH_MIN);
      if cfg.fastresend > 0 {
        WrapsNot(ssthresh + cfg.fastresend);
      } else {
        WrapShift(ssthresh + 0xffff_ffff, ssthresh - 1, 1);
        WrapsNot(ssthresh - 1);
      }
    }
    WrapsNot(Max(w / 2, 2));
  }

  lemma FlushWindow(c: Pcb, w: nat)
    requires Runs(c) && c.cfg.fastresend < HALF && c.cfg.sndWnd < HALF && OpenWindow(c, w)
    ensures var t := Admitted(Wrapping, c);
            WindowAfter(c.cfg, c.cong, SomeTimedOut(c.clock.current, t.buf), SomeSkipped(c.cfg, c.clock.current, t.buf),
                        Wrap32(t.nxt - t.una), w, Flush(Wrapping, c).s.cong)
  {
    var t := Admitted(Wrapping, c);
    Causes(c.cfg, c.clock.current, t.buf);
    assert SendWindow(c) == w;
    hide HasVerdict, SomeTimedOut, SomeSkipped, Admitted, TouchAll, LinkDies, ProbeTimer, FlushWires, OpenWindow, WindowAfter, AfterFlush;
    WindowIs(c.cfg, c.cong, SomeTimedOut(c.clock.current, t.buf), SomeSkipped(c.cfg, c.clock.current, t.buf), Wrap32(t.nxt - t.una), w);
  }

  /** The connection is given up when a transmitted segment reaches dead_link transmissions,
      and stays given up.  Acks and probe flags are used up, all else on the receive side
      and the configuration stay. */
  lemma FlushClears(c: Pcb)
    requires Runs(c) && c.cfg.fastresend < HALF
    ensures var d := Flush(Wrapping, c).s;
            && (d.dead <==> c.dead || exists g :: g in Admitted(Wrapping, c).buf && GoesOut(c.cfg, c.clock.current, g)
                                                  && Wrap32(g.xmit + 1) >= c.cfg.deadLink)
            && d.rcv == c.rcv.(acks := []) && !d.probe.ask && !d.probe.tell
            && d.cfg == c.cfg && d.rtt == c.rtt && d.clock == c.clock
  {
    var buf := Admitted(Wrapping, c).buf;
    forall g
      ensures !Judge(Wrapping, c.cfg, c.clock.current, g).Keep? <==> GoesOut(c.cfg, c.clock.current, g)
    {
      JudgedOut(c.cfg, c.clock.current, g);
    }
    hide Judge, GoesOut, Admitted, TouchAll, FlushCong, FlushWires, ProbeTimer, TimeDiff, Wrap32;
    assert LinkDies(Wrapping, c.cfg, c.clock.current, buf) <==>
           exists g :: g in buf && GoesOut(c.cfg, c.clock.current, g) && Wrap32(g.xmit + 1) >= c.cfg.deadLink;
  }
}
