/** What one endpoint keeps: the shape of its four queues on the Exact machine,
    and what each operation does to them. */
module Endpoint {
  import opened Serial
  import opened KcpTypes
  import opened KcpSpec

  ghost predicate SndAscending(buf: seq<SndSeg>) {
    forall i, j :: 0 <= i < j < |buf| ==> buf[i].sn < buf[j].sn
  }

  ghost predicate RcvAscending(buf: seq<RcvSeg>) {
    forall i, j :: 0 <= i < j < |buf| ==> buf[i].sn < buf[j].sn
  }

  /** snd_buf is strictly ascending in [snd_una, snd_nxt), snd_una is its head or
      snd_nxt, and no more than a window is in flight. */
  ghost predicate SndOk(s: Sender, wnd: nat) {
    && SndAscending(s.buf)
    && (forall g :: g in s.buf ==> s.una <= g.sn < s.nxt)
    && s.una == (if s.buf == [] then s.nxt else s.buf[0].sn)
    && 0 <= s.una <= s.nxt <= s.una + wnd
  }

  /** rcv_buf is strictly ascending in [rcv_nxt, rcv_nxt + rcv_wnd) and rcv_queue
      holds at most a window. */
  ghost predicate RcvOk(r: Receiver, wnd: nat) {
    && RcvAscending(r.buf)
    && (forall g :: g in r.buf ==> r.nxt <= g.sn < r.nxt + wnd)
    && |r.queue| <= wnd
    && 0 <= r.nxt
  }

  ghost predicate EndOk(s: Pcb) {
    && ValidConfig(s.cfg)
    && SndOk(s.snd, s.cfg.sndWnd)
    && RcvOk(s.rcv, s.cfg.rcvWnd)
  }

  ghost predicate InSndBuf(buf: seq<SndSeg>, sn: int) {
    exists g :: g in buf && g.sn == sn
  }

  ghost predicate InRcvBuf(buf: seq<RcvSeg>, sn: int) {
    exists g :: g in buf && g.sn == sn
  }

  /** The receiver holds, or has already passed on, segment sn. */
  ghost predicate Received(r: Receiver, sn: int) {
    sn < r.nxt || InRcvBuf(r.buf, sn)
  }

  // ------------------------------------------------------------ the send side

  /** ikcp_parse_una drops a prefix: every dropped segment is before una. */
  lemma {:induction false} ParseUnaSuffix(m: Mode, buf: seq<SndSeg>, una: int) returns (k: nat)
    ensures k <= |buf| && ParseUna(m, buf, una) == buf[k..]
    ensures forall i :: 0 <= i < k ==> Diff(m, una, buf[i].sn) > 0
    ensures k < |buf| ==> Diff(m, una, buf[k].sn) <= 0
  {
    if buf != [] && Diff(m, una, buf[0].sn) > 0 {
      var j := ParseUnaSuffix(m, buf[1..], una);
      k := j + 1;
      assert buf[1..][j..] == buf[k..];
      assert forall i :: 0 < i < k ==> buf[i] == buf[1..][i - 1];
    } else {
      k := 0;
    }
  }

  /** ikcp_parse_ack takes out the acknowledged segment and no other. */
  lemma {:induction false} RemoveAckedExact(buf: seq<SndSeg>, sn: int)
    requires SndAscending(buf)
    ensures var c := RemoveAcked(Exact, buf, sn);
            && SndAscending(c) && |c| <= |buf|
            && (forall g :: g in c <==> g in buf && g.sn != sn)
    decreases |buf|
  {
    if buf != [] {
      var tail := buf[1..];
      HeadIsLeast(buf);
      if buf[0].sn < sn {
        RemoveAckedExact(tail, sn);
        AscendingCons(buf[0], RemoveAcked(Exact, tail, sn));
      }
    }
  }

  lemma HeadIsLeast(buf: seq<SndSeg>)
    requires SndAscending(buf) && buf != []
    ensures SndAscending(buf[1..]) && forall g :: g in buf[1..] ==> buf[0].sn < g.sn
    ensures forall g :: g in buf <==> g == buf[0] || g in buf[1..]
  {
    assert buf == [buf[0]] + buf[1..];
  }

  lemma AscendingCons(g: SndSeg, tail: seq<SndSeg>)
    requires SndAscending(tail) && forall h :: h in tail ==> g.sn < h.sn
    ensures SndAscending([g] + tail)
  {
    var all := [g] + tail;
    assert forall i :: 0 < i < |all| ==> all[i] == tail[i - 1] && all[i] in tail;
  }

  /** Two buffers hold the same segments, whatever their timers say. */
  ghost predicate SameSegs(a: seq<SndSeg>, b: seq<SndSeg>) {
    |a| == |b| && forall i :: 0 <= i < |a| ==> a[i].sn == b[i].sn && a[i].frag == b[i].frag
  }

  lemma {:induction false} CountSkippedKeeps(m: Mode, buf: seq<SndSeg>, sn: int)
    ensures SameSegs(CountSkipped(m, buf, sn), buf)
  {
    if buf != [] && Diff(m, sn, buf[0].sn) >= 0 {
      CountSkippedKeeps(m, buf[1..], sn);
    }
  }

  /** What an incoming una or ack may do to the send side: it only loses segments
      before una, or the acknowledged one. */
  ghost predicate SndShrinks(a: Sender, b: Sender, una: int, acked: int) {
    && b.nxt == a.nxt && b.queue == a.queue && a.una <= b.una
    && (forall g :: g in b.buf ==> g in a.buf)
    && (forall g :: g in a.buf ==> g in b.buf || g.sn < una || g.sn == acked)
  }

  lemma UnaShrinks(s: Sender, wnd: nat, una: int)
    requires SndOk(s, wnd)
    ensures var t := ShrinkBuf(s.(buf := ParseUna(Exact, s.buf, una)));
            SndOk(t, wnd) && SndShrinks(s, t, una, -1) && forall g :: g in t.buf ==> una <= g.sn
  {
    var k := ParseUnaSuffix(Exact, s.buf, una);
    assert s.buf == s.buf[..k] + s.buf[k..];
  }

  lemma AckShrinks(s: Sender, wnd: nat, sn: int)
    requires SndOk(s, wnd)
    ensures var t := ShrinkBuf(ParseAck(Exact, s, sn));
            SndOk(t, wnd) && SndShrinks(s, t, 0, sn) && !InSndBuf(t.buf, sn)
  {
    RemoveAckedExact(s.buf, sn);
    if !InFlight(Exact, s, sn) {
      assert forall g :: g in s.buf ==> s.una <= g.sn < s.nxt;
    }
  }

  /** The segments made from a run of fragments, numbered from nxt on. */
  function Number(nxt: int, frags: seq<Frag>, current: int, rto: u32): (r: seq<SndSeg>)
    ensures |r| == |frags|
  {
    seq(|frags|, i requires 0 <= i < |frags| => SndSeg(nxt + i, frags[i], current, rto, 0, 0))
  }

  /** The fragments moved by Admit get consecutive numbers from snd_nxt on. */
  lemma {:induction false} AdmitNumbers(s: Sender, window: nat, current: int, rto: u32) returns (k: nat)
    ensures k <= |s.queue|
    ensures Admit(Exact, s, window, current, rto)
         == s.(queue := s.queue[k..], nxt := s.nxt + k, buf := s.buf + Number(s.nxt, s.queue[..k], current, rto))
    ensures k == 0 || s.nxt + k <= s.una + window
    decreases |s.queue|
  {
    if s.nxt < s.una + window && s.queue != [] {
      var g := SndSeg(s.nxt, s.queue[0], current, rto, 0, 0);
      var s1 := s.(queue := s.queue[1..], nxt := s.nxt + 1, buf := s.buf + [g]);
      var j := AdmitNumbers(s1, window, current, rto);
      k := j + 1;
      assert s.queue[1..][j..] == s.queue[k..];
      assert Number(s.nxt, s.queue[..k], current, rto) == [g] + Number(s1.nxt, s1.queue[..j], current, rto);
    } else {
      k := 0;
      assert s.buf == s.buf + Number(s.nxt, s.queue[..0], current, rto);
    }
  }

  // --------------------------------------------------------- the receive side

  /** Inserting keeps rcv_buf ascending, adds the segment unless its number is
      there already, and invents nothing. */
  lemma {:induction false} InsertSorted(buf: seq<RcvSeg>, seg: RcvSeg)
    requires RcvAscending(buf)
    ensures var b := Insert(Exact, buf, seg);
            && RcvAscending(b) && InRcvBuf(b, seg.sn)
            && (forall g :: g in buf ==> g in b)
            && (forall g :: g in b ==> g == seg || g in buf)
  {
    if buf == [] {
      assert seg in [seg];
    } else {
      var front, last := buf[..|buf| - 1], buf[|buf| - 1];
      assert buf == front + [last];
      if last.sn == seg.sn {
        assert last in buf;
      } else if seg.sn > last.sn {
        assert seg in buf + [seg];
      } else {
        InsertSorted(front, seg);
        var c := Insert(Exact, front, seg);
        assert forall g :: g in c ==> g.sn < last.sn;
        AscendingAppend(c, last);
        var g :| g in c && g.sn == seg.sn;
        assert g in c + [last];
      }
    }
  }

  lemma AscendingAppend(c: seq<RcvSeg>, last: RcvSeg)
    requires RcvAscending(c) && forall g :: g in c ==> g.sn < last.sn
    ensures RcvAscending(c + [last])
  {
  }

  // The scan of ikcp_parse_data from the tail of rcv_buf, one turn at a time.

  lemma InsertSame(buf: seq<RcvSeg>, i: nat, seg: RcvSeg)
    requires 0 < i <= |buf| && buf[i - 1].sn == seg.sn
    ensures Insert(Wrapping, buf[..i], seg) + buf[i..] == buf
  {
  }

  lemma InsertHere(buf: seq<RcvSeg>, i: nat, seg: RcvSeg)
    requires i <= |buf| && (i > 0 ==> buf[i - 1].sn != seg.sn && TimeDiff(seg.sn, buf[i - 1].sn) > 0)
    ensures Insert(Wrapping, buf[..i], seg) + buf[i..] == buf[..i] + [seg] + buf[i..]
  {
  }

  lemma InsertBefore(buf: seq<RcvSeg>, i: nat, seg: RcvSeg)
    requires 0 < i <= |buf| && buf[i - 1].sn != seg.sn && TimeDiff(seg.sn, buf[i - 1].sn) <= 0
    ensures Insert(Wrapping, buf[..i], seg) + buf[i..] == Insert(Wrapping, buf[..i - 1], seg) + buf[i - 1..]
  {
    assert buf[..i][..i - 1] == buf[..i - 1];
  }

  function Frags(buf: seq<RcvSeg>): (r: seq<Frag>)
    ensures |r| == |buf|
  {
    seq(|buf|, i requires 0 <= i < |buf| => buf[i].frag)
  }

  /** MoveReady moves the in-order prefix of rcv_buf, as far as rcv_queue has room. */
  lemma {:induction false} MoveReadyMoves(r: Receiver, wnd: nat) returns (k: nat)
    ensures k <= |r.buf|
    ensures forall i :: 0 <= i < k ==> r.buf[i].sn == r.nxt + i
    ensures MoveReady(Exact, r, wnd)
         == r.(buf := r.buf[k..], queue := r.queue + Frags(r.buf[..k]), nxt := r.nxt + k)
    ensures k == 0 || |r.queue| + k <= wnd
    ensures k < |r.buf| && |r.queue| + k < wnd ==> r.buf[k].sn != r.nxt + k
    decreases |r.buf|
  {
    if r.buf != [] && r.buf[0].sn == r.nxt && |r.queue| < wnd {
      var r1 := r.(buf := r.buf[1..], queue := r.queue + [r.buf[0].frag], nxt := r.nxt + 1);
      var j := MoveReadyMoves(r1, wnd);
      k := j + 1;
      assert r.buf[1..][j..] == r.buf[k..];
      assert forall i :: 0 < i < k ==> r.buf[i] == r1.buf[i - 1];
      assert Frags(r.buf[..k]) == [r.buf[0].frag] + Frags(r1.buf[..j]);
    } else {
      k := 0;
      assert r.queue == r.queue + Frags(r.buf[..0]);
    }
  }

  /** It leaves the pending acks alone. */
  lemma {:induction false} MoveReadyAcks(m: Mode, r: Receiver, wnd: nat)
    ensures MoveReady(m, r, wnd).acks == r.acks
    decreases |r.buf|
  {
    if r.buf != [] && r.buf[0].sn == r.nxt && |r.queue| < wnd {
      MoveReadyAcks(m, r.(buf := r.buf[1..], queue := r.queue + [r.buf[0].frag], nxt := Norm(m, r.nxt + 1)), wnd);
    }
  }

  /** Dropping the in-order prefix leaves segments from the new rcv_nxt on. */
  lemma AscendingGap(buf: seq<RcvSeg>, k: nat, nxt: int)
    requires RcvAscending(buf) && k <= |buf|
    requires forall g :: g in buf ==> nxt <= g.sn
    requires forall j :: 0 <= j < k ==> buf[j].sn == nxt + j
    ensures forall g :: g in buf[k..] ==> nxt + k <= g.sn
  {
    if k > 0 {
      assert forall i :: k <= i < |buf| ==> buf[k - 1].sn < buf[i].sn;
    }
  }

  /** MoveReady keeps the receive side in shape and forgets nothing. */
  lemma MoveReadyOk(r: Receiver, wnd: nat)
    requires RcvOk(r, wnd)
    ensures var t := MoveReady(Exact, r, wnd);
            && RcvOk(t, wnd) && r.nxt <= t.nxt && t.acks == r.acks
            && forall sn :: Received(r, sn) ==> Received(t, sn)
  {
    var k := MoveReadyMoves(r, wnd);
    AscendingGap(r.buf, k, r.nxt);
    assert r.buf == r.buf[..k] + r.buf[k..];
    forall g | g in r.buf
      ensures g.sn < r.nxt + k || g in r.buf[k..]
    {
    }
  }

  /** What an incoming push may do to the receive side. */
  ghost predicate RcvGrows(a: Receiver, b: Receiver, w: Wire) {
    && a.nxt <= b.nxt
    && (forall sn :: Received(a, sn) ==> Received(b, sn))
    && (b.acks == a.acks || (b.acks == a.acks + [Ack(w.sn, w.ts)] && Received(b, w.sn)))
  }

  lemma PushGrows(r: Receiver, wnd: nat, w: Wire)
    requires RcvOk(r, wnd)
    ensures var t := ReceivePush(Exact, r, wnd, w);
            RcvOk(t, wnd) && RcvGrows(r, t, w) && (w.sn < r.nxt + wnd ==> t.acks == r.acks + [Ack(w.sn, w.ts)])
  {
    if r.nxt <= w.sn < r.nxt + wnd {
      var seg := RcvSeg(w.sn, Frag(w.frg, w.data));
      InsertSorted(r.buf, seg);
      var r2 := r.(acks := r.acks + [Ack(w.sn, w.ts)], buf := Insert(Exact, r.buf, seg));
      assert RcvOk(r2, wnd);
      MoveReadyOk(r2, wnd);
      assert Received(r2, w.sn);
      assert forall sn :: Received(r, sn) ==> Received(r2, sn);
    }
  }
}
