/** The connection as a pipe of bytes, in message mode and in stream mode alike:
    what ikcp_recv has returned is a prefix of what ikcp_send took, and when the value
    ikcp_send returns tells the caller how much it took. */
module Streams {
  import opened Basics
  import opened Serial
  import opened KcpTypes
  import opened KcpSpec
  import opened System
  import opened Delivery
  import opened Messages

  function Bytes(q: seq<Frag>): seq<byte> {
    if q == [] then [] else Bytes(q[..|q| - 1]) + q[|q| - 1].data
  }

  lemma BytesSnoc(q: seq<Frag>, f: Frag)
    ensures Bytes(q + [f]) == Bytes(q) + f.data
  {
    assert (q + [f])[..|q|] == q;
  }

  lemma Associative(x: seq<byte>, y: seq<byte>, z: seq<byte>)
    ensures (x + y) + z == x + (y + z)
  {
  }

  lemma {:induction false} BytesAppend(a: seq<Frag>, b: seq<Frag>)
    ensures Bytes(a + b) == Bytes(a) + Bytes(b)
  {
    if b == [] {
      assert a + b == a;
    } else {
      var n := |b| - 1;
      BytesAppend(a, b[..n]);
      BytesSnoc(a + b[..n], b[n]);
      assert (a + b[..n]) + [b[n]] == a + b;
      Associative(Bytes(a), Bytes(b[..n]), b[n].data);
    }
  }

  lemma BytesOne(f: Frag)
    ensures Bytes([f]) == f.data
  {
    BytesSnoc([], f);
    assert [] + [f] == [f];
  }

  // --------------------------------------------------------------- one ikcp_send

  /** How many bytes of msg end up in snd_queue. */
  function Taken(cfg: Config, queue: seq<Frag>, msg: seq<byte>): (n: nat)
    requires cfg.mss > 0
    ensures n <= |msg|
  {
    var extend := StreamExtend(cfg, queue, msg);
    if (cfg.stream && extend == |msg|) || TooManyFrags(cfg.copy, FragCount(cfg.mss, |msg| - extend)) then extend else |msg|
  }

  lemma {:induction false} CutBytes(mss: nat, data: seq<byte>, count: nat, stream: bool)
    requires 0 < count <= 256 && |data| <= count * mss
    ensures Bytes(Cut(mss, data, count, stream)) == data
  {
    var size := Min(|data|, mss);
    var first := Frag(if stream then 0 else count - 1, data[..size]);
    BytesOne(first);
    if count > 1 {
      CutStep(|data|, mss, count);
      CutBytes(mss, data[size..], count - 1, stream);
      BytesAppend([first], Cut(mss, data[size..], count - 1, stream));
      assert data == data[..size] + data[size..];
    } else {
      assert Cut(mss, data[size..], 0, stream) == [] && data[..size] == data;
      assert Cut(mss, data, 1, stream) == [first] + [] == [first];
    }
  }

  lemma AppendBytes(cfg: Config, queue: seq<Frag>, msg: seq<byte>)
    ensures Bytes(StreamAppend(cfg, queue, msg)) == Bytes(queue) + msg[..StreamExtend(cfg, queue, msg)]
  {
    var n := StreamExtend(cfg, queue, msg);
    if cfg.stream && queue != [] && |queue[|queue| - 1].data| < cfg.mss {
      var front, last := queue[..|queue| - 1], queue[|queue| - 1];
      BytesSnoc(front, Frag(0, last.data + msg[..n]));
    }
  }

  lemma PiecesBytes(cfg: Config, queue: seq<Frag>, rest: seq<byte>)
    requires cfg.mss > 0 && !TooManyFrags(cfg.copy, FragCount(cfg.mss, |rest|))
    ensures Bytes(queue + Cut(cfg.mss, rest, FragCount(cfg.mss, |rest|), cfg.stream)) == Bytes(queue) + rest
  {
    var count := FragCount(cfg.mss, |rest|);
    CeilDiv(|rest|, cfg.mss);
    CutBytes(cfg.mss, rest, count, cfg.stream);
    BytesAppend(queue, Cut(cfg.mss, rest, count, cfg.stream));
  }

  /** ikcp_send adds exactly the first Taken bytes to what is queued. */
  lemma SendTakes(cfg: Config, queue: seq<Frag>, msg: seq<byte>)
    requires cfg.mss > 0
    ensures Bytes(Send(cfg, queue, msg).queue) == Bytes(queue) + msg[..Taken(cfg, queue, msg)]
  {
    hide Bytes, FragCount, Cut, StreamAppend, StreamExtend, TooManyFrags;
    var n := StreamExtend(cfg, queue, msg);
    var rest := msg[n..];
    AppendBytes(cfg, queue, msg);
    if !(cfg.stream && rest == []) && !TooManyFrags(cfg.copy, FragCount(cfg.mss, |rest|)) {
      PiecesBytes(cfg, StreamAppend(cfg, queue, msg), rest);
      assert (Bytes(queue) + msg[..n]) + rest == Bytes(queue) + msg;
    }
    assert msg[..|msg|] == msg;
  }

  /** What the caller takes the returned value to mean: the first copy returns 0 for
      everything, the second the number of bytes taken; both a negative number for nothing. */
  function Reported(cfg: Config, ret: int, msg: seq<byte>): nat {
    if ret < 0 then 0 else if cfg.copy.Basic? then |msg| else ret
  }

  /** The report is right except in one case of the first copy: a stream-mode send that
      fills up the last queued segment and then finds the remainder too long has queued
      bytes, yet returns -2. */
  lemma ReportIsExact(cfg: Config, queue: seq<Frag>, msg: seq<byte>)
    requires cfg.mss > 0
    ensures Reported(cfg, Send(cfg, queue, msg).ret, msg) == Taken(cfg, queue, msg)
       <==> !(cfg.copy.Basic? && StreamExtend(cfg, queue, msg) > 0
              && TooManyFrags(cfg.copy, FragCount(cfg.mss, |msg| - StreamExtend(cfg, queue, msg))))
  {
    var n := StreamExtend(cfg, queue, msg);
    assert |msg[n..]| == |msg| - n;
  }

  lemma ManyFrags(mss: nat, len: nat)
    requires mss > 0 && len > 255 * mss
    ensures FragCount(mss, len) > 255
  {
    var x := len + mss - 1;
    assert x == x / mss * mss + x % mss;
    if x / mss <= 255 {
      MulMono(x / mss, 255, mss);
    }
  }

  /** That case exists in every configuration of the first copy in stream mode: one byte is
      sent and queued; a send of more than 255 segments beyond the rest of that one fails,
      and its first mss - 1 bytes stay. */
  lemma FailedSendLeavesBytes(cfg: Config, cfgB: Config, msg: seq<byte>)
    requires ValidConfig(cfg) && ValidConfig(cfgB) && cfg.copy.Basic? && cfg.stream && |msg| > 256 * cfg.mss - 1
    ensures var queue := Run(Exact, cfg, cfgB, [Event(true, DoSend([7]))]).a.p.snd.queue;
            Send(cfg, queue, msg).ret == -2
    ensures var s := Run(Exact, cfg, cfgB, [Event(true, DoSend([7])), Event(true, DoSend(msg))]);
            s.a.accepted == [[7]] && Bytes(s.a.p.snd.queue) == [7] + msg[..cfg.mss - 1]
  {
    hide Send, Bytes, Recv, Flush, Input;
    OneByteQueued(cfg);
    RestIsRefused(cfg, msg);
    var one, two := [Event(true, DoSend([7]))], [Event(true, DoSend([7])), Event(true, DoSend(msg))];
    assert one[..0] == [] && two[..1] == one;
    assert Run(Exact, cfg, cfgB, []) == Sys(System.Start(cfg), System.Start(cfgB));
  }

  lemma RestIsRefused(cfg: Config, msg: seq<byte>)
    requires ValidConfig(cfg) && cfg.copy.Basic? && cfg.stream && |msg| > 256 * cfg.mss - 1
    ensures var r := Send(cfg, [Frag(0, [7])], msg);
            r.ret == -2 && Bytes(r.queue) == [7] + msg[..cfg.mss - 1]
  {
    hide FragCount, Bytes;
    var queue := [Frag(0, [7])];
    SendTakes(cfg, queue, msg);
    BytesOne(queue[0]);
    ManyFrags(cfg.mss, |msg| - (cfg.mss - 1));
    assert |msg[cfg.mss - 1..]| == |msg| - (cfg.mss - 1);
  }

  lemma OneByteQueued(cfg: Config)
    requires ValidConfig(cfg) && cfg.copy.Basic? && cfg.stream
    ensures Send(cfg, [], [7]) == SendResult([Frag(0, [7])], 0)
  {
    var msg: seq<byte> := [7];
    assert msg[0..] == msg && msg[..1] == msg && msg[1..] == [];
    assert Cut(cfg.mss, msg, 1, true) == [Frag(0, msg)] + Cut(cfg.mss, msg[1..], 0, true);
  }

  // ------------------------------------------------------------------- all runs

  /** The bytes taken by the sends of one side, in order. */
  function SentBytes(cfgA: Config, cfgB: Config, events: seq<Event>, atA: bool): seq<byte>
    requires ValidConfig(cfgA) && ValidConfig(cfgB)
  {
    if events == [] then []
    else
      var n := |events| - 1;
      var before := SentBytes(cfgA, cfgB, events[..n], atA);
      var s := Run(Exact, cfgA, cfgB, events[..n]);
      var h := if atA then s.a else s.b;
      if events[n].atA == atA && events[n].act.DoSend?
      then before + events[n].act.msg[..Taken(h.p.cfg, h.p.snd.queue, events[n].act.msg)]
      else before
  }

  lemma {:induction false} HeadSplits(q: seq<Frag>)
    ensures Bytes(q) == HeadBytes(q) + Bytes(q[HeadCount(q)..])
    decreases |q|
  {
    if q != [] {
      var rest := q[1..];
      assert q == [q[0]] + rest;
      BytesAppend([q[0]], rest);
      BytesOne(q[0]);
      if q[0].frg != 0 {
        HeadSplits(rest);
        assert q[HeadCount(q)..] == rest[HeadCount(rest)..];
      }
    }
  }

  /** Returned and still queued is what arrived. */
  ghost predicate ReadOk(h: Half) {
    Joined(h.returned) + Bytes(h.p.rcv.queue) == Bytes(h.arrived)
  }

  lemma MoreBytes(h: Half, g: Half)
    requires ReadOk(h) && g.returned == h.returned && h.p.rcv.queue <= g.p.rcv.queue
    requires g.arrived == h.arrived + g.p.rcv.queue[|h.p.rcv.queue|..]
    ensures ReadOk(g)
  {
    var more := g.p.rcv.queue[|h.p.rcv.queue|..];
    assert g.p.rcv.queue == h.p.rcv.queue + more;
    BytesAppend(h.p.rcv.queue, more);
    BytesAppend(h.arrived, more);
  }

  lemma TakeMessage(h: Half, n: nat)
    requires ReadOk(h) && n == HeadCount(h.p.rcv.queue)
    ensures ReadOk(h.(p := h.p.(rcv := h.p.rcv.(queue := h.p.rcv.queue[n..])), returned := h.returned + [HeadBytes(h.p.rcv.queue)]))
  {
    HeadSplits(h.p.rcv.queue);
    assert (h.returned + [HeadBytes(h.p.rcv.queue)])[..|h.returned|] == h.returned;
  }

  lemma RecvReads(self: Half, peer: Half, len: int)
    requires Pair(self, peer) && ReadOk(self)
    ensures ReadOk(RecvStep(Exact, self, len))
  {
    var v := Recv(Exact, self.p.rcv, self.p.cfg.rcvWnd, len);
    RecvAdvances(self.p.rcv, self.p.cfg.rcvWnd, len, peer.numbered);
    var q := self.p.rcv.queue;
    assert q[0..] == q;
    var h := self;
    if v.ret >= 0 && len >= 0 {
      TakeMessage(self, HeadCount(q));
      h := self.(p := self.p.(rcv := self.p.rcv.(queue := q[HeadCount(q)..])), returned := self.returned + [HeadBytes(q)]);
    }
    MoreBytes(h, RecvStep(Exact, self, len));
  }

  lemma StepReads(self: Half, peer: Half, act: Action)
    requires Pair(self, peer) && ReadOk(self)
    ensures ReadOk(HalfStep(Exact, self, peer.net, act))
  {
    match act
    case DoSend(msg) =>
    case DoRecv(len) => RecvReads(self, peer, len);
    case DoUpdate(now) => UpdateOk(self.p, now, self.numbered, peer.numbered, peer.p.rcv);
    case DoFlush => FlushKeeps(self.p, self.numbered, peer.numbered, peer.p.rcv);
    case Deliver(k) =>
      if k < |peer.net| {
        InputKeeps(self.p, self.numbered, peer.numbered, peer.p.rcv, peer.net[k]);
        MoreBytes(self, InputStep(Exact, self, peer.net[k]));
      }
  }

  lemma StepSends(self: Half, peer: Half, act: Action)
    requires Pair(self, peer)
    ensures var h := HalfStep(Exact, self, peer.net, act);
            Bytes(h.numbered + h.p.snd.queue)
            == Bytes(self.numbered + self.p.snd.queue)
               + (if act.DoSend? then act.msg[..Taken(self.p.cfg, self.p.snd.queue, act.msg)] else [])
  {
    if act.DoSend? {
      SendTakes(self.p.cfg, self.p.snd.queue, act.msg);
      BytesAppend(self.numbered, self.p.snd.queue);
      BytesAppend(self.numbered, Send(self.p.cfg, self.p.snd.queue, act.msg).queue);
    } else {
      SentFrame(self, peer, act);
    }
  }

  lemma {:induction false} RunPipes(cfgA: Config, cfgB: Config, events: seq<Event>)
    requires ValidConfig(cfgA) && ValidConfig(cfgB)
    ensures var s := Run(Exact, cfgA, cfgB, events);
            && ReadOk(s.a) && Bytes(s.a.numbered + s.a.p.snd.queue) == SentBytes(cfgA, cfgB, events, true)
            && ReadOk(s.b) && Bytes(s.b.numbered + s.b.p.snd.queue) == SentBytes(cfgA, cfgB, events, false)
  {
    if events != [] {
      var n := |events| - 1;
      RunPipes(cfgA, cfgB, events[..n]);
      RunOk(cfgA, cfgB, events[..n]);
      var s := Run(Exact, cfgA, cfgB, events[..n]);
      if events[n].atA {
        StepReads(s.a, s.b, events[n].act);
        StepSends(s.a, s.b, events[n].act);
      } else {
        StepReads(s.b, s.a, events[n].act);
        StepSends(s.b, s.a, events[n].act);
      }
    }
  }

  lemma PrefixOfSent(s: Half, r: Half)
    requires Dir(s, r) && ReadOk(r)
    ensures Joined(r.returned) <= Bytes(s.numbered + s.p.snd.queue)
  {
    var k := r.p.rcv.nxt;
    assert s.numbered + s.p.snd.queue == s.numbered[..k] + (s.numbered[k..] + s.p.snd.queue);
    BytesAppend(s.numbered[..k], s.numbered[k..] + s.p.snd.queue);
  }

  /** In every run, with any two configurations, the bytes ikcp_recv has returned are a
      prefix of the bytes the peer's ikcp_send took. */
  lemma BytesArePrefix(cfgA: Config, cfgB: Config, events: seq<Event>)
    requires ValidConfig(cfgA) && ValidConfig(cfgB)
    ensures var s := Run(Exact, cfgA, cfgB, events);
            && Joined(s.b.returned) <= SentBytes(cfgA, cfgB, events, true)
            && Joined(s.a.returned) <= SentBytes(cfgA, cfgB, events, false)
  {
    RunPipes(cfgA, cfgB, events);
    RunOk(cfgA, cfgB, events);
    var s := Run(Exact, cfgA, cfgB, events);
    PrefixOfSent(s.a, s.b);
    PrefixOfSent(s.b, s.a);
  }
}
