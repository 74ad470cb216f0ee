/** Time: differences of 32-bit times, when ikcp_update flushes, and when ikcp_check
    says to call it. */
module Timers {
  import opened Serial
  import opened KcpTypes
  import opened KcpSpec

  // --------------------------------------------------------------- differences

  /** The signed distance is the true one whenever that is small, whatever
      multiple of 2^32 lies between. */
  lemma DiffIs(a: int, b: int, d: int, k: int)
    requires -0x8000_0000 <= d < 0x8000_0000 && a - b == d + k * 0x1_0000_0000
    ensures TimeDiff(a, b) == d
  {
    WrapShift(a - b, d, k);
  }

  lemma DiffTurns(a: int, b: int) returns (k: int)
    ensures a - b == TimeDiff(a, b) + k * 0x1_0000_0000
  {
    var x := a - b;
    k := x / 0x1_0000_0000;
    if Wrap32(x) >= 0x8000_0000 {
      k := k + 1;
    }
  }

  /** Moving the clock on by k moves every distance by k. */
  lemma DiffMoves(now: int, k: nat, b: int)
    requires TimeDiff(now, b) + k < 0x8000_0000
    ensures TimeDiff(Wrap32(now + k), b) == TimeDiff(now, b) + k
  {
    var q := DiffTurns(now, b);
    var r := (now + k) / 0x1_0000_0000;
    DiffIs(Wrap32(now + k), b, TimeDiff(now, b) + k, q - r);
  }

  /** Looking the other way changes the sign, except at the far end. */
  lemma DiffFlips(a: int, b: int)
    ensures TimeDiff(a, b) > -0x8000_0000 ==> TimeDiff(b, a) == -TimeDiff(a, b)
    ensures TimeDiff(a, b) == -0x8000_0000 ==> TimeDiff(b, a) == -0x8000_0000
  {
    var q := DiffTurns(a, b);
    if TimeDiff(a, b) > -0x8000_0000 {
      DiffIs(b, a, -TimeDiff(a, b), -q);
    } else {
      DiffIs(b, a, -0x8000_0000, 1 - q);
    }
  }

  /** A deadline set off ahead of now lies in the future, as the code judges it,
      exactly when off is positive and at most 2^31. */
  lemma DeadlineAhead(now: int, off: int)
    requires 0 <= off < 0x1_0000_0000
    ensures TimeDiff(now, Wrap32(now + off)) < 0 <==> 0 < off <= 0x8000_0000
  {
    var r := (now + off) / 0x1_0000_0000;
    if off <= 0x8000_0000 {
      DiffIs(now, Wrap32(now + off), -off, r);
    } else {
      DiffIs(now, Wrap32(now + off), 0x1_0000_0000 - off, r - 1);
    }
  }

  // -------------------------------------------------------- ikcp_update, ikcp_check

  /** When ikcp_update flushes, and what it sets the next flush to.  It flushes on the first
      call, when the flush time has been reached, and when it is more than ten seconds away
      either way.  The flush time then moves on by one interval; it starts over from now on
      the first call, after ten seconds, or if the next one would have been reached too. */
  lemma TickExactly(clock: Clock, interval: nat, now: u32)
    requires 0 < interval <= 5000
    ensures var (next, due) := Tick(Wrapping, clock, interval, now);
            var late := TimeDiff(now, clock.tsFlush);
            && next.updated && next.current == now
            && (due <==> !clock.updated || late >= 0 || late < -10000)
            && (!due ==> next.tsFlush == clock.tsFlush)
            && (due ==> next.tsFlush == Wrap32((if clock.updated && 0 <= late < interval then clock.tsFlush else now) + interval))
  {
    var late := TimeDiff(now, clock.tsFlush);
    assert TimeDiff(now, now) == 0;
    DeadlineAhead(now, interval);
    if clock.updated && 0 <= late < 10000 {
      LaterBy(now, clock.tsFlush, interval);
    }
  }

  /** Putting a deadline off by k puts the distance to it off by k. */
  lemma LaterBy(now: int, t: int, k: nat)
    requires -0x8000_0000 <= TimeDiff(now, t) - k
    ensures TimeDiff(now, Wrap32(t + k)) == TimeDiff(now, t) - k
  {
    var q := DiffTurns(now, t);
    DiffIs(now, Wrap32(t + k), TimeDiff(now, t) - k, q + (t + k) / 0x1_0000_0000);
  }

  /** After ikcp_update has flushed, the next flush is due within an interval;
      after one that has not, within ten seconds. */
  lemma FlushIsScheduled(clock: Clock, interval: nat, now: u32)
    requires 0 < interval <= 5000
    ensures var (next, due) := Tick(Wrapping, clock, interval, now);
            && next.updated && next.current == now
            && 0 < TimeDiff(next.tsFlush, now) <= (if due then interval else 10000)
  {
    var ts0 := if clock.updated then clock.tsFlush else now;
    var slap0 := TimeDiff(now, ts0);
    var reset := slap0 >= 10000 || slap0 < -10000;
    var ts1 := if reset then now else ts0;
    assert TimeDiff(now, now) == 0;
    var slap := TimeDiff(now, ts1);
    DiffFlips(now, ts1);
    if slap >= 0 {
      DiffMoves(ts1, interval, now);
      DiffFlips(Wrap32(ts1 + interval), now);
      DiffMoves(now, interval, now);
    }
  }

  /** The scan of snd_buf gives 0 when a segment is due, and otherwise the time to
      the first one. */
  lemma {:induction false} NextResendIsLeast(buf: seq<SndSeg>, now: u32, least: int)
    requires least > 0
    ensures var d := NextResend(Wrapping, buf, now, least);
            && 0 <= d <= least
            && (d == 0 <==> exists g :: g in buf && TimeDiff(g.resendts, now) <= 0)
            && (d > 0 ==> forall g :: g in buf ==> d <= TimeDiff(g.resendts, now))
            && (0 < d < least ==> exists g :: g in buf && d == TimeDiff(g.resendts, now))
    decreases |buf|
  {
    if buf != [] {
      var d := TimeDiff(buf[0].resendts, now);
      assert buf == [buf[0]] + buf[1..];
      if d > 0 {
        NextResendIsLeast(buf[1..], now, Min(d, least));
      } else {
        assert buf[0] in buf;
      }
    }
  }

  /** ikcp_check names a time that is neither past nor more than an interval away. */
  lemma CheckIsNear(clock: Clock, interval: nat, buf: seq<SndSeg>, now: u32)
    requires interval <= 5000
    ensures var at := Check(Wrapping, clock, interval, buf, now);
            0 <= TimeDiff(at, now) <= interval
  {
    NextResendIsLeast(buf, now, 0x7fff_ffff);
    DiffFlips(now, clock.tsFlush);
    assert TimeDiff(now, now) == 0;
    var d := CheckDelay(clock, interval, buf, now);
    DiffMoves(now, d, now);
  }

  /** How far ahead ikcp_check looks. */
  ghost function CheckDelay(clock: Clock, interval: nat, buf: seq<SndSeg>, now: u32): (d: nat)
    ensures d <= interval && Check(Wrapping, clock, interval, buf, now) == Wrap32(now + d)
  {
    var late := TimeDiff(now, clock.tsFlush);
    NextResendIsLeast(buf, now, 0x7fff_ffff);
    DiffFlips(now, clock.tsFlush);
    var packet := NextResend(Wrapping, buf, now, 0x7fff_ffff);
    if !clock.updated || late >= 0 || late < -10000 || packet == 0 then 0
    else Min(Min(packet, -late), interval)
  }

  /** No work is missed by sleeping until the time ikcp_check names: at every
      earlier time ikcp_update would not flush, and no segment is past its
      retransmission time. */
  lemma CheckIsSafe(clock: Clock, interval: nat, buf: seq<SndSeg>, now: u32, k: nat)
    requires interval <= 5000
    requires k < TimeDiff(Check(Wrapping, clock, interval, buf, now), now)
    ensures !Tick(Wrapping, clock, interval, Wrap32(now + k)).1
    ensures forall g :: g in buf ==> TimeDiff(Wrap32(now + k), g.resendts) < 0
  {
    var d := CheckDelay(clock, interval, buf, now);
    assert TimeDiff(now, now) == 0;
    DiffMoves(now, d, now);
    NextResendIsLeast(buf, now, 0x7fff_ffff);
    DiffMoves(now, k, clock.tsFlush);
    forall g | g in buf
      ensures TimeDiff(Wrap32(now + k), g.resendts) < 0
    {
      DiffFlips(g.resendts, now);
      DiffMoves(now, k, g.resendts);
    }
  }

  /** And it does not wake the caller early: at the time it names there is work, or
      a whole interval has passed. */
  lemma CheckIsTight(clock: Clock, interval: nat, buf: seq<SndSeg>, now: u32)
    requires interval <= 5000
    ensures var at := Check(Wrapping, clock, interval, buf, now);
            || TimeDiff(at, now) == interval
            || Tick(Wrapping, clock, interval, at).1
            || exists g :: g in buf && TimeDiff(g.resendts, at) <= 0
  {
    var late := TimeDiff(now, clock.tsFlush);
    var d := CheckDelay(clock, interval, buf, now);
    assert TimeDiff(now, now) == 0;
    DiffFlips(now, clock.tsFlush);
    NextResendIsLeast(buf, now, 0x7fff_ffff);
    if clock.updated && -10000 <= late < 0 && d > 0 {
      DiffMoves(now, d, now);
      DiffMoves(now, d, clock.tsFlush);
      if 0 < d == NextResend(Wrapping, buf, now, 0x7fff_ffff) {
        var g :| g in buf && d == TimeDiff(g.resendts, now);
        DiffFlips(g.resendts, now);
        DiffMoves(now, d, g.resendts);
        DiffFlips(Wrap32(now + d), g.resendts);
      }
    }
  }
}
