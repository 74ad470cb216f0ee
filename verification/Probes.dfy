/** Window probes: when a sender facing a closed window asks for it, and that the answer
    goes out with the peer's next flush. */
module Probes {
  import opened Serial
  import opened KcpTypes
  import opened KcpSpec
  import opened Codec
  import opened AnyBytes
  import opened Datagrams
  import opened FlushContents
  import opened FastResend
  import opened Timers

  // -------------------------------------------------------------------- one flush

  /** Some segment carries the command. */
  ghost predicate Holds(ws: seq<Wire>, cmd: byte) {
    exists w :: w in ws && w.cmd == cmd
  }

  /** The remote window is closed and the running probe time has been reached. */
  predicate ProbeIsDue(c: Pcb) {
    c.cong.rmtWnd == 0 && c.probe.wait > 0 && TimeDiff(c.clock.current, c.probe.ts) >= 0
  }

  /** Whether a probe was asked for before the flush: never, between two calls. */
  lemma {:induction false} NeverAskedBefore(cfg: Config, calls: seq<Call>)
    requires ValidConfig(cfg)
    ensures !AfterCalls(cfg, calls).probe.ask
  {
    if calls != [] {
      var n := |calls| - 1;
      NeverAskedBefore(cfg, calls[..n]);
      CallAsks(AfterCalls(cfg, calls[..n]), calls[n]);
    }
  }

  lemma {:induction false} WiresProbe(c: InCtx, ws: seq<Wire>)
    ensures var d := InputWires(Wrapping, c, ws).s.probe;
            d == c.s.probe.(tell := d.tell) && (d.tell <==> c.s.probe.tell || Holds(ws, 83))
    decreases |ws|
  {
    if ws != [] {
      hide InputSnd, InputRcv, InputRtt;
      assert ws == [ws[0]] + ws[1..];
      WiresProbe(InputWire(Wrapping, c, ws[0]), ws[1..]);
    }
  }

  /** A call that does not flush leaves the probe timer alone. */
  lemma QuietProbe(c: Pcb, call: Call)
    requires c.cfg.mss > 0 && !Flushes(c, call)
    ensures var d := AfterCall(c, call).probe;
            d == c.probe.(tell := d.tell) && (c.probe.tell ==> d.tell)
  {
    hide Recv, Send, Parse, InputWires;
    if call.CallInput? {
      WiresProbe(InCtx(c, false, 0), Parse(c.cfg.conv, call.bytes).wires);
    }
  }

  lemma CallAsks(c: Pcb, call: Call)
    requires c.cfg.mss > 0 && !c.probe.ask
    ensures !AfterCall(c, call).probe.ask
  {
    if Flushes(c, call) {
      FlushStartsFrom(c, call);
    } else {
      QuietProbe(c, call);
    }
  }

  /** How the timer stands after a flush at time now.  An open window stops it.  A closed one
      starts it at 7 seconds; each time it is reached the wait grows by half, to at most
      two minutes, and starts over from now. */
  predicate TimerAfter(c: Pcb, p: Probe) {
    var now := c.clock.current;
    && (c.cong.rmtWnd > 0 ==> p.wait == 0)
    && (c.cong.rmtWnd == 0 && c.probe.wait == 0 ==> p.wait == 7000 && p.ts == Wrap32(now + 7000))
    && (c.cong.rmtWnd == 0 && c.probe.wait > 0 && !ProbeIsDue(c) ==> p.wait == c.probe.wait && p.ts == c.probe.ts)
    && (ProbeIsDue(c) ==> 7000 < p.wait <= 120000 && p.ts == Wrap32(now + p.wait))
    && (ProbeIsDue(c) && 7000 <= c.probe.wait <= 120000 ==>
          p.wait == if c.probe.wait > 80000 then 120000 else c.probe.wait + c.probe.wait / 2)
  }

  lemma TimerIs(c: Pcb)
    requires c.probe.wait <= 120000
    ensures TimerAfter(c, ProbeTimer(Wrapping, c.probe, c.cong.rmtWnd, c.clock.current))
    ensures ProbeTimer(Wrapping, c.probe, c.cong.rmtWnd, c.clock.current).ask <==> c.probe.ask || ProbeIsDue(c)
    ensures ProbeTimer(Wrapping, c.probe, c.cong.rmtWnd, c.clock.current).tell == c.probe.tell
  {
    var w := if c.probe.wait < 7000 then 7000 else c.probe.wait;
    WrapsNot(w + w / 2);
  }

  lemma PushesHoldNone(c: Pcb, buf: seq<SndSeg>)
    ensures !Holds(PushWires(Wrapping, c, buf), 83) && !Holds(PushWires(Wrapping, c, buf), 84)
  {
    hide Judge;
    PushWiresExact(Wrapping, c, buf);
  }

  lemma HoldsEither(a: seq<Wire>, b: seq<Wire>, cmd: byte)
    ensures Holds(a + b, cmd) <==> Holds(a, cmd) || Holds(b, cmd)
  {
    if Holds(a, cmd) {
      var w :| w in a && w.cmd == cmd;
      assert w in a + b;
    }
    if Holds(b, cmd) {
      var w :| w in b && w.cmd == cmd;
      assert w in a + b;
    }
  }

  /** Which probes a flush puts on the wire, and how it leaves the timer. */
  lemma FlushProbes(c: Pcb)
    requires Runs(c) && c.probe.wait <= 120000 && !c.probe.ask
    ensures Holds(Flush(Wrapping, c).wires, 83) <==> ProbeIsDue(c)
    ensures Holds(Flush(Wrapping, c).wires, 84) <==> c.probe.tell
    ensures TimerAfter(c, Flush(Wrapping, c).s.probe)
  {
    TimerIs(c);
    hide ProbeIsDue, ProbeTimer, TimerAfter, Admitted, PushWires, TouchAll, FlushCong, LinkDies;
    var pr := ProbeTimer(Wrapping, c.probe, c.cong.rmtWnd, c.clock.current);
    assert TimerAfter(c, pr) ==> TimerAfter(c, pr.(ask := false, tell := false)) by { TimerOnly(c, pr); }
    var a, b, p := AckWires(c), ProbeWires(c, pr), PushWires(Wrapping, c, Admitted(Wrapping, c).buf);
    PushesHoldNone(c, Admitted(Wrapping, c).buf);
    ProbesHold(c, pr);
    HoldsEither(a, b, 83);
    HoldsEither(a, b, 84);
    HoldsEither(a + b, p, 83);
    HoldsEither(a + b, p, 84);
  }

  lemma TimerOnly(c: Pcb, p: Probe)
    ensures TimerAfter(c, p) <==> TimerAfter(c, p.(ask := false, tell := false))
  {
  }

  lemma ProbesHold(c: Pcb, pr: Probe)
    ensures Holds(ProbeWires(c, pr), 83) <==> pr.ask
    ensures Holds(ProbeWires(c, pr), 84) <==> pr.tell
    ensures !Holds(AckWires(c), 83) && !Holds(AckWires(c), 84)
  {
    var ask, tell := ProbeWire(c, CMD_WASK), ProbeWire(c, CMD_WINS);
    assert ask in [ask] && tell in [tell];
    HoldsEither(if pr.ask then [ask] else [], if pr.tell then [tell] else [], 83);
    HoldsEither(if pr.ask then [ask] else [], if pr.tell then [tell] else [], 84);
  }

  // ---------------------------------------------------------------------- all runs

  /** The wait is nothing, or between seven seconds and two minutes, in every run. */
  lemma {:induction false} WaitBounded(cfg: Config, calls: seq<Call>)
    requires ValidConfig(cfg)
    ensures var w := AfterCalls(cfg, calls).probe.wait;
            w == 0 || 7000 <= w <= 120000
  {
    if calls != [] {
      var n := |calls| - 1;
      var c := AfterCalls(cfg, calls[..n]);
      WaitBounded(cfg, calls[..n]);
      NeverAskedBefore(cfg, calls[..n]);
      if Flushes(c, calls[n]) {
        FlushStartsFrom(c, calls[n]);
        FlushProbes(Before(c, calls[n]));
      } else {
        QuietProbe(c, calls[n]);
      }
    }
  }

  /** The i-th call flushes, and puts the command on the wire. */
  ghost predicate Puts(cfg: Config, calls: seq<Call>, i: nat, cmd: byte)
    requires ValidConfig(cfg) && i < |calls|
  {
    var c := AfterCalls(cfg, calls[..i]);
    Flushes(c, calls[i]) && Holds(Flush(Wrapping, Before(c, calls[i])).wires, cmd)
  }

  /** The time at which the i-th call flushes. */
  function FlushTime(cfg: Config, calls: seq<Call>, i: nat): int
    requires ValidConfig(cfg) && i < |calls|
  {
    Before(AfterCalls(cfg, calls[..i]), calls[i]).clock.current
  }

  /** Every flush from call k on finds the remote window closed. */
  ghost predicate StaysClosed(cfg: Config, calls: seq<Call>, k: nat)
    requires ValidConfig(cfg)
  {
    forall i :: k <= i < |calls| && Flushes(AfterCalls(cfg, calls[..i]), calls[i]) ==> AfterCalls(cfg, calls[..i]).cong.rmtWnd == 0
  }

  /** What flush i does to the timer, in a run. */
  lemma RunProbes(cfg: Config, calls: seq<Call>, i: nat)
    requires ValidConfig(cfg) && i < |calls| && Flushes(AfterCalls(cfg, calls[..i]), calls[i])
    ensures var c := AfterCalls(cfg, calls[..i]);
            var b := Before(c, calls[i]);
            && b == c.(clock := b.clock) && Runs(b)
            && (Puts(cfg, calls, i, 83) <==> ProbeIsDue(b))
            && (Puts(cfg, calls, i, 84) <==> c.probe.tell)
            && TimerAfter(b, AfterCalls(cfg, calls[..i + 1]).probe)
  {
    var c := AfterCalls(cfg, calls[..i]);
    WaitBounded(cfg, calls[..i]);
    NeverAskedBefore(cfg, calls[..i]);
    AfterNext(cfg, calls, i);
    FlushStartsFrom(c, calls[i]);
    FlushProbes(Before(c, calls[i]));
  }

  /** One call of a run that does not flush. */
  lemma QuietStep(cfg: Config, calls: seq<Call>, j: nat)
    requires ValidConfig(cfg) && j < |calls| && !Flushes(AfterCalls(cfg, calls[..j]), calls[j])
    ensures var c, d := AfterCalls(cfg, calls[..j]).probe, AfterCalls(cfg, calls[..j + 1]).probe;
            d == c.(tell := d.tell) && (c.tell ==> d.tell)
  {
    hide AfterCalls, AfterCall, Flushes;
    AfterNext(cfg, calls, j);
    QuietProbe(AfterCalls(cfg, calls[..j]), calls[j]);
  }

  /** While no flush asks, a running timer stands still. */
  lemma {:induction false} TimerStands(cfg: Config, calls: seq<Call>, k: nat, j: nat)
    requires ValidConfig(cfg) && k <= j <= |calls| && StaysClosed(cfg, calls, k) && AfterCalls(cfg, calls[..k]).probe.wait > 0
    requires forall i :: k <= i < j ==> !Puts(cfg, calls, i, 83)
    ensures var c, d := AfterCalls(cfg, calls[..k]).probe, AfterCalls(cfg, calls[..j]).probe;
            d.wait == c.wait && d.ts == c.ts
  {
    hide AfterCalls, AfterCall, Flushes, Puts;
    if k < j {
      TimerStands(cfg, calls, k, j - 1);
      var c := AfterCalls(cfg, calls[..j - 1]);
      if Flushes(c, calls[j - 1]) {
        RunProbes(cfg, calls, j - 1);
      } else {
        QuietStep(cfg, calls, j - 1);
      }
    }
  }

  lemma Reached(now: int, t: int, wait: nat)
    requires 0 <= wait <= TimeDiff(now, t)
    ensures TimeDiff(now, Wrap32(t + wait)) >= 0
  {
    var k := DiffTurns(now, t);
    var r := (t + wait) / 0x1_0000_0000;
    DiffIs(now, Wrap32(t + wait), TimeDiff(now, t) - wait, k + r);
  }

  /** While the window stays closed, a timer started at time t with the wait it shows has
      been answered by a probe once a flush comes that much later. */
  lemma AsksInTime(cfg: Config, calls: seq<Call>, k: nat, t: int)
    requires ValidConfig(cfg) && k < |calls| && StaysClosed(cfg, calls, k)
    requires var p := AfterCalls(cfg, calls[..k]).probe;
             p.wait > 0 && p.ts == Wrap32(t + p.wait) && TimeDiff(FlushTime(cfg, calls, |calls| - 1), t) >= p.wait
    requires Flushes(AfterCalls(cfg, calls[..|calls| - 1]), calls[|calls| - 1])
    ensures exists i :: k <= i < |calls| && Puts(cfg, calls, i, 83)
  {
    hide AfterCalls, Flushes, Puts, TimeDiff, Wrap32;
    var n := |calls| - 1;
    if forall i :: k <= i < n ==> !Puts(cfg, calls, i, 83) {
      TimerStands(cfg, calls, k, n);
      RunProbes(cfg, calls, n);
      var p := AfterCalls(cfg, calls[..k]).probe;
      Reached(FlushTime(cfg, calls, n), t, p.wait);
      assert Puts(cfg, calls, n, 83);
    }
  }

  /** A flush that starts the timer, or starts it over, starts it at its own time. */
  lemma TimerStarts(cfg: Config, calls: seq<Call>, k: nat)
    requires ValidConfig(cfg) && k < |calls| && StaysClosed(cfg, calls, k) && Flushes(AfterCalls(cfg, calls[..k]), calls[k])
    requires var p := AfterCalls(cfg, calls[..k]).probe;
             p.wait == 0 || TimeDiff(FlushTime(cfg, calls, k), p.ts) >= 0
    ensures var p, q := AfterCalls(cfg, calls[..k]).probe, AfterCalls(cfg, calls[..k + 1]).probe;
            && 0 < q.wait <= (if p.wait == 0 then 7000 else 120000) && q.ts == Wrap32(FlushTime(cfg, calls, k) + q.wait)
            && (p.wait > 0 ==> Puts(cfg, calls, k, 83))
  {
    hide AfterCalls, Flushes, Puts, TimeDiff, Wrap32;
    RunProbes(cfg, calls, k);
  }

  lemma ClosedLater(cfg: Config, calls: seq<Call>, k: nat)
    requires ValidConfig(cfg) && StaysClosed(cfg, calls, k)
    ensures StaysClosed(cfg, calls, k + 1)
  {
    hide AfterCalls, Flushes;
  }

  /** A sender whose peer has closed its window keeps asking.  The flush that finds the window
      closed for the first time starts a timer of 7 seconds; a flush that finds the timer
      reached asks, and starts one of at most two minutes.  As long as every flush finds
      the window closed, the flush that comes that much later, or one before it, asks. */
  lemma KeepsAsking(cfg: Config, calls: seq<Call>, k: nat)
    requires ValidConfig(cfg) && k + 1 < |calls| && StaysClosed(cfg, calls, k)
    requires var n := |calls| - 1;
             && Flushes(AfterCalls(cfg, calls[..k]), calls[k]) && Flushes(AfterCalls(cfg, calls[..n]), calls[n])
             && var p, t := AfterCalls(cfg, calls[..k]).probe, FlushTime(cfg, calls, k);
             && (p.wait == 0 || TimeDiff(t, p.ts) >= 0)
             && TimeDiff(FlushTime(cfg, calls, n), t) >= (if p.wait == 0 then 7000 else 120000)
    ensures AfterCalls(cfg, calls[..k]).probe.wait > 0 ==> Puts(cfg, calls, k, 83)
    ensures exists i :: k < i < |calls| && Puts(cfg, calls, i, 83)
  {
    hide AfterCalls, Flushes, Puts, TimeDiff, Wrap32, FlushTime, StaysClosed;
    TimerStarts(cfg, calls, k);
    assert StaysClosed(cfg, calls, k + 1) by { ClosedLater(cfg, calls, k); }
    AsksInTime(cfg, calls, k + 1, FlushTime(cfg, calls, k));
  }

  // ------------------------------------------------------------------- the answer

  /** The call makes the endpoint owe its peer a report of its window: a probe came in, or
      an ikcp_recv made room in a full rcv_queue. */
  ghost predicate OwesWindow(c: Pcb, call: Call)
    requires c.cfg.mss > 0
  {
    match call
    case CallInput(bytes) => Holds(Parse(c.cfg.conv, bytes).wires, 83)
    case CallRecv(len) => |c.rcv.queue| >= c.cfg.rcvWnd && |AfterCall(c, call).rcv.queue| < c.cfg.rcvWnd
    case _ => false
  }

  lemma Owes(c: Pcb, call: Call)
    requires c.cfg.mss > 0 && OwesWindow(c, call)
    ensures AfterCall(c, call).probe.tell
  {
    hide InputWires, Parse, MoveReady, HeadCount, PeekSize;
    if call.CallInput? {
      WiresProbe(InCtx(c, false, 0), Parse(c.cfg.conv, call.bytes).wires);
    }
  }

  lemma {:induction false} StillOwes(cfg: Config, calls: seq<Call>, k: nat, j: nat)
    requires ValidConfig(cfg) && k <= j <= |calls| && QuietSince(cfg, calls, k) && AfterCalls(cfg, calls[..k]).probe.tell
    ensures AfterCalls(cfg, calls[..j]).probe.tell
  {
    hide AfterCalls, AfterCall, Flushes;
    if k < j {
      StillOwes(cfg, calls, k, j - 1);
      QuietStep(cfg, calls, j - 1);
    }
  }

  /** The next flush after such a call answers with a report of the window as it then is. */
  lemma AnswersNext(cfg: Config, calls: seq<Call>, k: nat, call: Call)
    requires ValidConfig(cfg) && k < |calls| && OwesWindow(AfterCalls(cfg, calls[..k]), calls[k])
    requires QuietSince(cfg, calls, k + 1) && Flushes(AfterCalls(cfg, calls), call)
    ensures var b := Before(AfterCalls(cfg, calls), call);
            exists w :: w in Flush(Wrapping, b).wires && w.cmd == 84 && w.wnd == FreeWindow(b)
  {
    var c := AfterCalls(cfg, calls);
    AfterNext(cfg, calls, k);
    Owes(AfterCalls(cfg, calls[..k]), calls[k]);
    StillOwes(cfg, calls, k + 1, |calls|);
    assert calls[..|calls|] == calls;
    WaitBounded(cfg, calls);
    NeverAskedBefore(cfg, calls);
    FlushStartsFrom(c, call);
    var b := Before(c, call);
    FlushProbes(b);
    FlushAcks(b);
    hide AfterCalls, AfterCall, Flushes, Flush, FreeWindow;
    var w :| w in Flush(Wrapping, b).wires && w.cmd == 84;
  }
}
