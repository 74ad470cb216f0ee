/** What one ikcp_recv returns, in every run: the next message, once all of it is there and
    the caller's buffer is long enough. */
module Reading {
  import opened Serial
  import opened KcpTypes
  import opened KcpSpec
  import opened System
  import opened Delivery
  import opened Messages
  import opened Accepting
  import opened Endpoint

  /** queue1 starts with what queue has from position k on. */
  predicate KeepsFrom(queue: seq<Frag>, k: nat, queue1: seq<Frag>) {
    k <= |queue| && queue[k..] <= queue1
  }

  /** One call on a queue that starts with some or all of the fragments of msg, k of them in
      all.  It fails with -1 on an empty queue, with -2 while the message is not complete, with
      -3 if it is longer than the buffer.  Otherwise it gives the message; a negative
      length only looks at it, any other takes it out. */
  predicate ReadsNext(queue: seq<Frag>, msg: seq<byte>, k: nat, len: int, v: RecvResult) {
    && (queue == [] ==> v.ret == -1)
    && (queue != [] && |queue| < k ==> v.ret == -2)
    && (queue != [] && |queue| >= k && |msg| > Abs(len) ==> v.ret == -3)
    && (v.ret < 0 ==> v.data == [] && v.rcv.queue == queue && !v.tell)
    && (queue != [] && |queue| >= k && |msg| <= Abs(len) ==>
          v.ret == |msg| && v.data == msg && KeepsFrom(queue, if len < 0 then 0 else k, v.rcv.queue))
  }

  /** The window is to be reported when an ikcp_recv finds rcv_queue full and makes room; and
      no segment that is next in order waits in rcv_buf while rcv_queue has room. */
  predicate LeavesNoGap(r: Receiver, wnd: nat, v: RecvResult) {
    && (v.ret >= 0 ==> (v.tell <==> |r.queue| >= wnd && |v.rcv.queue| < wnd))
    && (v.ret >= 0 && v.rcv.buf != [] && |v.rcv.queue| < wnd ==> v.rcv.buf[0].sn != v.rcv.nxt)
  }

  lemma MovesAll(r: Receiver, wnd: nat)
    ensures var t := MoveReady(Exact, r, wnd);
            r.queue <= t.queue && (t.buf != [] && |t.queue| < wnd ==> t.buf[0].sn != t.nxt)
  {
    var k := MoveReadyMoves(r, wnd);
  }

  lemma FewEnough(cfg: Config, msg: seq<byte>)
    requires cfg.mss > 0 && (msg == [] || !TooManyFrags(cfg.copy, FragCount(cfg.mss, |msg|)))
    ensures FragCount(cfg.mss, |msg|) <= 256 && |MsgFrags(cfg.mss, msg)| == FragCount(cfg.mss, |msg|)
  {
  }

  lemma ReadIs(r: Receiver, wnd: nat, msg: seq<byte>, mss: nat, later: seq<Frag>, len: int)
    requires mss > 0 && FragCount(mss, |msg|) <= 256
    requires r.queue != [] ==> r.queue <= MsgFrags(mss, msg) + later
    ensures var v := Recv(Exact, r, wnd, len);
            ReadsNext(r.queue, msg, |MsgFrags(mss, msg)|, len, v) && LeavesNoGap(r, wnd, v)
  {
    if r.queue != [] {
      PeekIsComplete(mss, msg, r.queue, later);
      hide MsgFrags, FragCount, HeadBytes, HeadCount, PeekSize, MoveReady;
      MovesAll(r, wnd);
      MovesAll(r.(queue := r.queue[HeadCount(r.queue)..]), wnd);
    }
  }

  /** msg, of k fragments, is the first message of t that r has not returned. */
  ghost predicate NextIs(t: Half, r: Half, msg: seq<byte>, k: nat) {
    && r.returned <= t.accepted
    && (r.returned == t.accepted ==> r.p.rcv.queue == [])
    && (r.returned != t.accepted ==> msg == t.accepted[|r.returned|] && Pieces(t.p.cfg.mss, |msg|, k))
  }

  lemma HalfReads(t: Half, r: Half, len: int) returns (msg: seq<byte>, k: nat)
    requires Pair(t, r) && MsgSnd(t) && MsgRcv(t, r)
    ensures var v := Recv(Exact, r.p.rcv, r.p.cfg.rcvWnd, len);
            NextIs(t, r, msg, k) && ReadsNext(r.p.rcv.queue, msg, k, len, v) && LeavesNoGap(r.p.rcv, r.p.cfg.rcvWnd, v)
  {
    BoundaryHolds(t, r);
    hide Pair, Recv, MsgFrags, AllFrags, FragCount, ReadsNext, LeavesNoGap, Pieces;
    msg := [];
    if r.returned != t.accepted {
      msg := t.accepted[|r.returned|];
      assert msg in t.accepted;
    }
    var later: seq<Frag> := [];
    if r.p.rcv.queue != [] {
      later := NextMessage(t, r);
    }
    CountIs(t.p.cfg.mss, |msg|);
    FewEnough(t.p.cfg, msg);
    k := |MsgFrags(t.p.cfg.mss, msg)|;
    ReadIs(r.p.rcv, r.p.cfg.rcvWnd, msg, t.p.cfg.mss, later, len);
  }

  /** In every run, for a sender in message mode at the other end, ikcp_recv reads the next
      message as above. */
  lemma NextRead(cfgA: Config, cfgB: Config, events: seq<Event>, atA: bool, len: int) returns (msg: seq<byte>, k: nat)
    requires ValidConfig(cfgA) && ValidConfig(cfgB) && !(if atA then cfgB else cfgA).stream
    ensures var s := Run(Exact, cfgA, cfgB, events);
            var r, t := Side(s, atA), Side(s, !atA);
            var v := Recv(Exact, r.p.rcv, r.p.cfg.rcvWnd, len);
            NextIs(t, r, msg, k) && ReadsNext(r.p.rcv.queue, msg, k, len, v) && LeavesNoGap(r.p.rcv, r.p.cfg.rcvWnd, v)
  {
    RunOk(cfgA, cfgB, events);
    RunMsgs(cfgA, cfgB, events);
    var s := Run(Exact, cfgA, cfgB, events);
    hide Run, Recv, Pieces, MsgFrags;
    msg, k := HalfReads(Side(s, !atA), Side(s, atA), len);
  }
}
