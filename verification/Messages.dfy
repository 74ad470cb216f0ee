/** Message mode end to end: what is sent, queued, peeked and returned, message by message. */
module Messages {
  import opened Serial
  import opened KcpTypes
  import opened KcpSpec
  import opened System
  import opened Delivery

  /** The fragments of one message: numbered count-1 down to 0. */
  function MsgFrags(mss: nat, msg: seq<byte>): seq<Frag>
    requires mss > 0 && FragCount(mss, |msg|) <= 256
  {
    Cut(mss, msg, FragCount(mss, |msg|), false)
  }

  ghost predicate Acceptable(cfg: Config, msgs: seq<seq<byte>>) {
    cfg.mss > 0 && forall m :: m in msgs ==> !TooManyFrags(cfg.copy, FragCount(cfg.mss, |m|))
  }

  function AllFrags(cfg: Config, msgs: seq<seq<byte>>): seq<Frag>
    requires Acceptable(cfg, msgs)
  {
    if msgs == [] then [] else AllFrags(cfg, msgs[..|msgs| - 1]) + MsgFrags(cfg.mss, msgs[|msgs| - 1])
  }

  // ------------------------------------------------------------ one message

  lemma CeilDiv(len: nat, mss: nat)
    requires mss > 0
    ensures len <= FragCount(mss, len) * mss
  {
    if len > mss {
      var q := (len + mss - 1) / mss;
      assert len + mss - 1 == q * mss + (len + mss - 1) % mss;
    }
  }

  lemma CutStep(len: nat, mss: nat, count: nat)
    requires 1 < count && len <= count * mss
    ensures len - Min(len, mss) <= (count - 1) * mss
  {
    assert count * mss == (count - 1) * mss + mss;
    assert 0 <= (count - 1) * mss;
  }

  /** Fragments are numbered downwards to 0 and fit the mss. */
  predicate Countdown(f: seq<Frag>, mss: nat) {
    forall i :: 0 <= i < |f| ==> f[i].frg == |f| - 1 - i && |f[i].data| <= mss
  }

  lemma {:induction false} CutNumbers(mss: nat, data: seq<byte>, count: nat)
    requires count <= 256
    ensures Countdown(Cut(mss, data, count, false), mss)
  {
    if count > 0 {
      CutNumbers(mss, data[Min(|data|, mss)..], count - 1);
    }
  }

  /** Reading up to the fragment numbered 0 gives the data back. */
  lemma {:induction false} CutJoins(mss: nat, data: seq<byte>, count: nat, rest: seq<Frag>)
    requires 0 < count <= 256 && |data| <= count * mss
    ensures var f := Cut(mss, data, count, false);
            HeadBytes(f + rest) == data && HeadCount(f + rest) == count
  {
    var size := Min(|data|, mss);
    var first := Frag(count - 1, data[..size]);
    var g := Cut(mss, data[size..], count - 1, false);
    assert Cut(mss, data, count, false) + rest == [first] + (g + rest);
    if count == 1 {
      assert data[..size] == data;
    } else {
      CutStep(|data|, mss, count);
      CutJoins(mss, data[size..], count - 1, rest);
      assert data == data[..size] + data[size..];
    }
  }

  /** A queue that starts with a whole message yields exactly that message. */
  lemma WholeMessage(mss: nat, msg: seq<byte>, rest: seq<Frag>)
    requires mss > 0 && FragCount(mss, |msg|) <= 256
    ensures var f := MsgFrags(mss, msg);
            && 0 < |f| && f[0].frg == |f| - 1
            && HeadBytes(f + rest) == msg && HeadCount(f + rest) == |f| && PeekSize(f + rest) == |msg|
  {
    CeilDiv(|msg|, mss);
    var n := FragCount(mss, |msg|);
    if |msg| > mss {
      assert n > 0 by {
        assert n * mss > 0;
      }
    }
    CutJoins(mss, msg, n, rest);
    CutNumbers(mss, msg, n);
    var f := MsgFrags(mss, msg);
    assert (f + rest)[0] == f[0];
  }

  /** ikcp_peeksize is non-negative exactly when the queue, which starts on a
      message boundary, holds the whole first message. */
  lemma PeekIsComplete(mss: nat, msg: seq<byte>, queue: seq<Frag>, later: seq<Frag>)
    requires mss > 0 && FragCount(mss, |msg|) <= 256
    requires queue != [] && queue <= MsgFrags(mss, msg) + later
    ensures PeekSize(queue) >= 0 <==> |MsgFrags(mss, msg)| <= |queue|
    ensures PeekSize(queue) >= 0 ==>
              PeekSize(queue) == |msg| && HeadBytes(queue) == msg && HeadCount(queue) == |MsgFrags(mss, msg)|
              && queue[..HeadCount(queue)] == MsgFrags(mss, msg)
  {
    var f := MsgFrags(mss, msg);
    WholeMessage(mss, msg, []);
    assert f + [] == f;
    assert queue[0] == (f + later)[0] == f[0];
    if |f| <= |queue| {
      assert queue == f + queue[|f|..] by {
        assert queue[..|f|] == (f + later)[..|f|] == f;
      }
      WholeMessage(mss, msg, queue[|f|..]);
    }
  }

  // ---------------------------------------------------------- the invariant

  /** The sender has cut its accepted messages into what it numbered and queued. */
  ghost predicate MsgSnd(s: Half) {
    && !s.p.cfg.stream && ValidConfig(s.p.cfg) && Acceptable(s.p.cfg, s.accepted)
    && AllFrags(s.p.cfg, s.accepted) == s.numbered + s.p.snd.queue
  }

  /** The receiver has returned a prefix of them; its queue follows on that
      message boundary. */
  ghost predicate MsgRcv(s: Half, r: Half) {
    && r.returned <= s.accepted && Acceptable(s.p.cfg, r.returned)
    && r.arrived == AllFrags(s.p.cfg, r.returned) + r.p.rcv.queue
  }

  lemma AllFragsAppend(cfg: Config, msgs: seq<seq<byte>>, msg: seq<byte>)
    requires Acceptable(cfg, msgs + [msg])
    ensures Acceptable(cfg, msgs)
    ensures FragCount(cfg.mss, |msg|) <= 256
    ensures AllFrags(cfg, msgs + [msg]) == AllFrags(cfg, msgs) + MsgFrags(cfg.mss, msg)
  {
    var all := msgs + [msg];
    assert forall m :: m in msgs ==> m in all;
    assert msg in all;
    assert all[..|all| - 1] == msgs;
  }

  lemma AcceptableSplit(cfg: Config, a: seq<seq<byte>>, b: seq<seq<byte>>)
    requires Acceptable(cfg, a + b)
    ensures Acceptable(cfg, a) && Acceptable(cfg, b)
  {
    assert forall m :: m in a ==> m in a + b;
    assert forall m :: m in b ==> m in a + b;
  }

  lemma {:induction false} AllFragsSplit(cfg: Config, a: seq<seq<byte>>, b: seq<seq<byte>>)
    requires Acceptable(cfg, a + b) && Acceptable(cfg, a) && Acceptable(cfg, b)
    ensures AllFrags(cfg, a + b) == AllFrags(cfg, a) + AllFrags(cfg, b)
    decreases |b|
  {
    hide MsgFrags, FragCount;
    if b == [] {
      assert a + b == a;
    } else {
      var n := |b| - 1;
      var c := a + b[..n];
      assert a + b == c + [b[n]];
      AcceptableSplit(cfg, c, [b[n]]);
      AcceptableSplit(cfg, a, b[..n]);
      AllFragsAppend(cfg, c, b[n]);
      AllFragsSplit(cfg, a, b[..n]);
      var x, y, z := AllFrags(cfg, a), AllFrags(cfg, b[..n]), MsgFrags(cfg.mss, b[n]);
      assert (x + y) + z == x + (y + z);
    }
  }

  /** The queue is a prefix of the fragments of the messages not yet returned:
      it starts on a message boundary. */
  lemma BoundaryHolds(s: Half, r: Half)
    requires Pair(s, r) && MsgSnd(s) && MsgRcv(s, r)
    ensures var rest := s.accepted[|r.returned|..];
            && Acceptable(s.p.cfg, rest) && r.p.rcv.queue <= AllFrags(s.p.cfg, rest)
            && (r.p.rcv.queue != [] ==> rest != [])
  {
    var rest := s.accepted[|r.returned|..];
    assert s.accepted == r.returned + rest;
    AcceptableSplit(s.p.cfg, r.returned, rest);
    AllFragsSplit(s.p.cfg, r.returned, rest);
    var done := AllFrags(s.p.cfg, r.returned);
    var all := AllFrags(s.p.cfg, s.accepted);
    assert r.arrived <= all;
    assert all == done + AllFrags(s.p.cfg, rest);
    assert r.p.rcv.queue == r.arrived[|done|..];
    assert AllFrags(s.p.cfg, rest) == all[|done|..];
  }

  lemma NoFrags(cfg: Config)
    requires cfg.mss > 0
    ensures AllFrags(cfg, []) == []
  {
  }

  /** The next message to be read, and how much of it is in the queue. */
  lemma NextMessage(s: Half, r: Half) returns (later: seq<Frag>)
    requires Pair(s, r) && MsgSnd(s) && MsgRcv(s, r) && r.p.rcv.queue != []
    ensures |r.returned| < |s.accepted| && FragCount(s.p.cfg.mss, |s.accepted[|r.returned|]|) <= 256
    ensures r.p.rcv.queue <= MsgFrags(s.p.cfg.mss, s.accepted[|r.returned|]) + later
  {
    BoundaryHolds(s, r);
    NoFrags(s.p.cfg);
    hide AllFrags, MsgFrags, FragCount, Pair;
    var rest := s.accepted[|r.returned|..];
    var msg := rest[0];
    assert rest == [msg] + rest[1..];
    AcceptableSplit(s.p.cfg, [msg], rest[1..]);
    AllFragsSplit(s.p.cfg, [msg], rest[1..]);
    assert [] + [msg] == [msg];
    AllFragsAppend(s.p.cfg, [], msg);
    later := AllFrags(s.p.cfg, rest[1..]);
    assert AllFrags(s.p.cfg, []) + MsgFrags(s.p.cfg.mss, msg) == MsgFrags(s.p.cfg.mss, msg);
  }

  // ------------------------------------------------------------- each call

  lemma SendKeeps(s: Half, msg: seq<byte>)
    requires MsgSnd(s)
    ensures MsgSnd(SendStep(s, msg)) && s.accepted <= SendStep(s, msg).accepted
  {
    var t := SendStep(s, msg);
    assert msg[0..] == msg;
    if t.accepted != s.accepted {
      AllFragsAppend(s.p.cfg, s.accepted, msg);
    }
  }

  lemma PrefixExtends(cfg: Config, all: seq<seq<byte>>, some: seq<seq<byte>>)
    requires Acceptable(cfg, all) && some <= all && |some| < |all|
    ensures some + [all[|some|]] <= all && Acceptable(cfg, some + [all[|some|]])
  {
    var n := |some|;
    assert all == (some + [all[n]]) + all[n + 1..];
    AcceptableSplit(cfg, some + [all[n]], all[n + 1..]);
  }

  /** Reading the first message moves it from the queue to the returned ones. */
  lemma ReadKeeps(cfg: Config, done: seq<seq<byte>>, msg: seq<byte>, q: seq<Frag>, n: nat)
    requires Acceptable(cfg, done + [msg]) && FragCount(cfg.mss, |msg|) <= 256
    requires n <= |q| && q[..n] == MsgFrags(cfg.mss, msg)
    ensures Acceptable(cfg, done)
    ensures AllFrags(cfg, done) + q == AllFrags(cfg, done + [msg]) + q[n..]
  {
    AllFragsAppend(cfg, done, msg);
    assert q == q[..n] + q[n..];
  }

  lemma RecvKeeps(s: Half, r: Half, len: int)
    requires Pair(r, s) && MsgSnd(s) && MsgRcv(s, r)
    ensures MsgRcv(s, RecvStep(Exact, r, len))
  {
    var v := Recv(Exact, r.p.rcv, r.p.cfg.rcvWnd, len);
    RecvAdvances(r.p.rcv, r.p.cfg.rcvWnd, len, s.numbered);
    var r1 := r;
    if v.ret >= 0 && len >= 0 {
      var later := NextMessage(s, r);
      var q, msg := r.p.rcv.queue, s.accepted[|r.returned|];
      PrefixExtends(s.p.cfg, s.accepted, r.returned);
      PeekIsComplete(s.p.cfg.mss, msg, q, later);
      ReadKeeps(s.p.cfg, r.returned, msg, q, HeadCount(q));
      r1 := r.(p := r.p.(rcv := r.p.rcv.(queue := q[HeadCount(q)..])), returned := r.returned + [msg]);
    } else {
      assert r.p.rcv.queue[0..] == r.p.rcv.queue;
    }
    MoreArrives(s, r1, RecvStep(Exact, r, len));
  }

  lemma MoreArrives(s: Half, r: Half, h: Half)
    requires MsgRcv(s, r) && h.returned == r.returned && r.p.rcv.queue <= h.p.rcv.queue
    requires h.arrived == r.arrived + h.p.rcv.queue[|r.p.rcv.queue|..]
    ensures MsgRcv(s, h)
  {
  }

  /** A flush moves fragments from the queue to the numbered sequence, and an
      incoming datagram moves none. */
  lemma EmitFrame(self: Half, peer: Half, f: Flushed)
    requires FlushOk(self.p, f, self.numbered, peer.numbered, peer.p.rcv)
    ensures var h := EmitStep(self, f);
            && h.numbered + h.p.snd.queue == self.numbered + self.p.snd.queue
            && h.accepted == self.accepted && h.p.cfg == self.p.cfg
  {
    EmitMoves(self, f);
  }

  /** Only ikcp_send adds fragments. */
  lemma SentFrame(self: Half, peer: Half, act: Action)
    requires Pair(self, peer) && !act.DoSend?
    ensures var h := HalfStep(Exact, self, peer.net, act);
            && h.numbered + h.p.snd.queue == self.numbered + self.p.snd.queue
            && h.accepted == self.accepted && h.p.cfg == self.p.cfg
  {
    match act
    case DoRecv(len) =>
    case DoUpdate(now) =>
      UpdateOk(self.p, now, self.numbered, peer.numbered, peer.p.rcv);
      EmitFrame(self, peer, Update(Exact, self.p, now));
    case DoFlush =>
      FlushKeeps(self.p, self.numbered, peer.numbered, peer.p.rcv);
      EmitFrame(self, peer, Flush(Exact, self.p));
    case Deliver(k) =>
      if k < |peer.net| {
        InputKeeps(self.p, self.numbered, peer.numbered, peer.p.rcv, peer.net[k]);
      }
  }

  lemma StepKeepsSent(self: Half, peer: Half, act: Action)
    requires Pair(self, peer) && MsgSnd(self)
    ensures var h := HalfStep(Exact, self, peer.net, act);
            MsgSnd(h) && self.accepted <= h.accepted && h.p.cfg == self.p.cfg
  {
    if act.DoSend? {
      SendKeeps(self, act.msg);
    } else {
      SentFrame(self, peer, act);
    }
  }

  lemma StepKeepsRead(self: Half, peer: Half, act: Action)
    requires Pair(self, peer) && MsgSnd(peer) && MsgRcv(peer, self)
    ensures MsgRcv(peer, HalfStep(Exact, self, peer.net, act))
  {
    match act
    case DoSend(msg) =>
    case DoRecv(len) => RecvKeeps(peer, self, len);
    case DoUpdate(now) => UpdateOk(self.p, now, self.numbered, peer.numbered, peer.p.rcv);
    case DoFlush => FlushKeeps(self.p, self.numbered, peer.numbered, peer.p.rcv);
    case Deliver(k) =>
      if k < |peer.net| {
        InputKeeps(self.p, self.numbered, peer.numbered, peer.p.rcv, peer.net[k]);
        MoreArrives(peer, self, InputStep(Exact, self, peer.net[k]));
      }
  }

  /** A flush only moves fragments from the queue to the numbered sequence. */
  lemma EmitMoves(h: Half, f: Flushed)
    requires |f.s.snd.queue| <= |h.p.snd.queue| && f.s.snd.queue == h.p.snd.queue[|h.p.snd.queue| - |f.s.snd.queue|..]
    ensures EmitStep(h, f).numbered + f.s.snd.queue == h.numbered + h.p.snd.queue
  {
    var k := |h.p.snd.queue| - |f.s.snd.queue|;
    assert h.p.snd.queue == h.p.snd.queue[..k] + h.p.snd.queue[k..];
  }

  lemma StepKeepsMsgs(self: Half, peer: Half, act: Action)
    requires Pair(self, peer)
    ensures MsgSnd(self) ==> MsgSnd(HalfStep(Exact, self, peer.net, act))
    ensures MsgSnd(self) && MsgRcv(self, peer) ==> MsgRcv(HalfStep(Exact, self, peer.net, act), peer)
    ensures MsgSnd(peer) && MsgRcv(peer, self) ==> MsgRcv(peer, HalfStep(Exact, self, peer.net, act))
  {
    if MsgSnd(self) {
      StepKeepsSent(self, peer, act);
    }
    if MsgSnd(peer) && MsgRcv(peer, self) {
      StepKeepsRead(self, peer, act);
    }
  }

  lemma {:induction false} RunMsgs(cfgA: Config, cfgB: Config, events: seq<Event>)
    requires ValidConfig(cfgA) && ValidConfig(cfgB)
    ensures var s := Run(Exact, cfgA, cfgB, events);
            && (!cfgA.stream ==> MsgSnd(s.a) && MsgRcv(s.a, s.b))
            && (!cfgB.stream ==> MsgSnd(s.b) && MsgRcv(s.b, s.a))
  {
    if events != [] {
      var n := |events| - 1;
      RunMsgs(cfgA, cfgB, events[..n]);
      RunOk(cfgA, cfgB, events[..n]);
      var s := Run(Exact, cfgA, cfgB, events[..n]);
      if events[n].atA {
        StepKeepsMsgs(s.a, s.b, events[n].act);
      } else {
        StepKeepsMsgs(s.b, s.a, events[n].act);
      }
    }
  }

  /** In every run, for a sender in message mode at either end: rcv_queue starts on a
      message boundary, being a prefix of the fragments of the messages not yet returned;
      and ikcp_peeksize is non-negative exactly when the whole next message is queued, and
      then it is that message's length. */
  lemma QueueOnBoundary(cfgA: Config, cfgB: Config, events: seq<Event>, atA: bool)
    requires ValidConfig(cfgA) && ValidConfig(cfgB) && !(if atA then cfgB else cfgA).stream
    ensures var s := Run(Exact, cfgA, cfgB, events);
            var r, t := Side(s, atA), Side(s, !atA);
            && r.returned <= t.accepted
            && var rest := t.accepted[|r.returned|..];
            && Acceptable(t.p.cfg, rest) && r.p.rcv.queue <= AllFrags(t.p.cfg, rest)
            && (r.p.rcv.queue != [] ==>
                  && rest != [] && FragCount(t.p.cfg.mss, |rest[0]|) <= 256
                  && (PeekSize(r.p.rcv.queue) >= 0 <==> |MsgFrags(t.p.cfg.mss, rest[0])| <= |r.p.rcv.queue|)
                  && (PeekSize(r.p.rcv.queue) >= 0 ==> PeekSize(r.p.rcv.queue) == |rest[0]|))
  {
    RunOk(cfgA, cfgB, events);
    RunMsgs(cfgA, cfgB, events);
    var s := Run(Exact, cfgA, cfgB, events);
    var r, t := Side(s, atA), Side(s, !atA);
    BoundaryHolds(t, r);
    if r.p.rcv.queue != [] {
      var later := NextMessage(t, r);
      PeekIsComplete(t.p.cfg.mss, t.accepted[|r.returned|], r.p.rcv.queue, later);
    }
  }

  /** In every run the messages ikcp_recv returned are a prefix of the messages
      the peer's ikcp_send accepted. */
  lemma MessagesArePrefix(cfgA: Config, cfgB: Config, events: seq<Event>)
    requires ValidConfig(cfgA) && ValidConfig(cfgB) && !cfgA.stream && !cfgB.stream
    ensures var s := Run(Exact, cfgA, cfgB, events);
            s.b.returned <= s.a.accepted && s.a.returned <= s.b.accepted
  {
    RunMsgs(cfgA, cfgB, events);
  }
}
