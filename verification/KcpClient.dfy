/** The calls through which the application uses a control block: one object, and the steps
    of ByteRun.dfy it makes. */
module KcpClient {
  import opened Serial
  import opened KcpTypes
  import opened KcpSpec
  import opened AnyBytes
  import opened System
  import opened Messages
  import opened KcpClass
  import opened ByteRun

  /** The size of the buffers of receiveData. */
  const BUFFER: nat := 1500

  /** The object is in that state and has put out those byte strings. */
  ghost predicate Shows(k: Kcp, h: ByteHalf)
    reads k, k.acklist
  {
    k.Valid() && k.State() == h.c && k.output == h.net
  }

  /** updateKcp */
  method UpdateKcp(k: Kcp, now: int, ghost h: ByteHalf)
    requires Shows(k, h) && h.c.cfg.mss > 0
    modifies k, k.acklist
    ensures Shows(k, ByteStep(h, [], DoUpdate(now)))
  {
    hide U32Ok, Datagrams.Fits, Packing.Pack, EncodeEach, Update;
    UpdateStored(h.c, now);
    k.Update(Wrap32(now));
  }

  /** sendData */
  method SendData(k: Kcp, data: seq<byte>, ghost h: ByteHalf) returns (ret: int)
    requires Shows(k, h) && h.c.cfg.mss > 0
    modifies k, k.acklist
    ensures var sent := ByteStep(h, [], DoSend(data));
            Shows(k, sent) && sent.accepted == if ret >= 0 then h.accepted + [data] else h.accepted
  {
    hide U32Ok, Datagrams.Fits;
    assert data[..|data|] == data;
    ret := k.Send(data, |data|);
  }

  /** The endpoint after receiveData has been given byte string number i of the peer, or none
      if there is no such. */
  function Received(h: ByteHalf, peerNet: seq<seq<byte>>, i: nat): (t: ByteHalf)
    requires h.c.cfg.mss > 0
    ensures h.returned <= t.returned
  {
    ByteStepKeepsConfig(h, peerNet, Deliver(i));
    ByteStep(ByteStep(h, peerNet, Deliver(i)), peerNet, DoRecv(BUFFER))
  }

  /** receiveData, after recvfrom: datagram is what arrived, if anything did.  What it returns
      is the message it has read, or nothing, which it also returns for a message of no
      bytes. */
  method ReceiveData(k: Kcp, datagram: seq<byte>, ghost h: ByteHalf, ghost peerNet: seq<seq<byte>>, ghost i: nat)
    returns (result: seq<byte>)
    requires Shows(k, h) && h.c.cfg.mss > 0
    requires if datagram == [] then i >= |peerNet| else i < |peerNet| && peerNet[i] == datagram
    modifies k, k.acklist
    ensures Shows(k, Received(h, peerNet, i))
    ensures var read := Received(h, peerNet, i).returned[|h.returned|..];
            if read == [] then result == [] else read == [result]
  {
    hide U32Ok, Datagrams.Fits, InputBytes, HeadBytes, HeadCount, PeekSize, MoveReady;
    CallKeepsConfig(h.c, CallInput(datagram));
    if |datagram| > 0 {
      var status := k.Input(datagram);
    }
    var ret, data := k.Recv(BUFFER);
    result := if ret > 0 then data else [];
  }

  // --------------------------------------------------- messages that are too long

  /** That side reads through receiveData only. */
  predicate ReadsThrough(events: seq<Event>, atA: bool) {
    forall e :: e in events && e.atA == atA && e.act.DoRecv? ==> e.act.len == BUFFER
  }

  /** So what it has read fits the buffer. */
  lemma {:induction false} ReadFits(cfgA: Config, cfgB: Config, events: seq<Event>, atA: bool)
    requires ValidConfig(cfgA) && ValidConfig(cfgB) && ReadsThrough(events, atA)
    ensures forall msg :: msg in Side(Run(Exact, cfgA, cfgB, events), atA).returned ==> |msg| <= BUFFER
  {
    hide Recv, Send, Flush, Input;
    if events != [] {
      var n := |events| - 1;
      ReadFits(cfgA, cfgB, events[..n], atA);
      var s := Run(Exact, cfgA, cfgB, events[..n]);
      assert events[n] in events;
      StepReadsFit(Side(s, atA), Side(s, !atA).net, events[n].act);
    }
  }

  lemma StepReadsFit(self: Half, peerNet: seq<Datagram>, act: Action)
    requires self.p.cfg.mss > 0
    ensures (act.DoRecv? ==> act.len == BUFFER) ==>
              forall msg :: msg in HalfStep(Exact, self, peerNet, act).returned ==> msg in self.returned || |msg| <= BUFFER
  {
  }

  /** sendData takes messages of up to 255 segments, but receiveData reads into a buffer of
      1500 bytes: one longer message, and neither it nor anything sent after it is ever
      returned, in whatever run. */
  lemma LongMessageBlocks(cfgA: Config, cfgB: Config, events: seq<Event>, atA: bool, i: nat)
    requires ValidConfig(cfgA) && ValidConfig(cfgB) && !cfgA.stream && !cfgB.stream && ReadsThrough(events, atA)
    requires var sent := Side(Run(Exact, cfgA, cfgB, events), !atA).accepted;
             i < |sent| && |sent[i]| > BUFFER
    ensures |Side(Run(Exact, cfgA, cfgB, events), atA).returned| <= i
  {
    ReadFits(cfgA, cfgB, events, atA);
    MessagesArePrefix(cfgA, cfgB, events);
    var s := Run(Exact, cfgA, cfgB, events);
    var read := Side(s, atA).returned;
    assert forall j :: 0 <= j < |read| ==> read[j] in read;
  }
}
