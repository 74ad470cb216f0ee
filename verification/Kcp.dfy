/** The control block as the C code keeps it: fields updated in place, numbers of
    32 bits, bytes on the wire.  Every method is proved to do to State() exactly
    what the corresponding function of KcpSpec does with m == Wrapping. */
module KcpClass {
  import opened Serial
  import opened KcpTypes
  import opened KcpSpec
  import opened Packing
  import opened Codec
  import opened Endpoint
  import opened AnyBytes
  import opened Datagrams
  import Refinement

  predicate U32Segs(buf: seq<SndSeg>) {
    forall g :: g in buf ==> 0 <= g.sn < 0x1_0000_0000
  }

  predicate U32RcvSegs(buf: seq<RcvSeg>) {
    forall g :: g in buf ==> 0 <= g.sn < 0x1_0000_0000
  }

  class Kcp {
    const cfg: Config
    // send side
    var sndUna: u32
    var sndNxt: u32
    var sndQueue: seq<Frag>
    var sndBuf: seq<SndSeg>
    var nsndQue: u32
    var nsndBuf: u32
    // receive side
    var rcvNxt: u32
    var rcvBuf: seq<RcvSeg>
    var rcvQueue: seq<Frag>
    var nrcvBuf: u32
    var nrcvQue: u32
    var acklist: array<u32>
    var ackcount: nat
    var ackblock: nat
    // congestion, round trips, probes, clock
    var cwnd: u32
    var ssthresh: u32
    var incr: u32
    var rmtWnd: u32
    var rxSrtt: int
    var rxRttval: int
    var rxRto: u32
    var askSend: bool
    var askTell: bool
    var tsProbe: u32
    var probeWait: u32
    var current: u32
    var tsFlush: u32
    var updated: bool
    var dead: bool
    /** The datagrams handed to the output callback so far. */
    var output: seq<seq<byte>>

    ghost function Acks(): seq<Ack>
      requires 2 * ackcount <= acklist.Length
      reads this`acklist, this`ackcount, acklist
    {
      PairUp(acklist[..2 * ackcount], ackcount)
    }

    ghost function Snd(): Sender
      reads this`sndUna, this`sndNxt, this`sndQueue, this`sndBuf
    {
      Sender(sndUna, sndNxt, sndQueue, sndBuf)
    }

    ghost function Rcv(): Receiver
      requires 2 * ackcount <= acklist.Length
      reads this`rcvNxt, this`rcvBuf, this`rcvQueue, this`acklist, this`ackcount, acklist
    {
      Receiver(rcvNxt, rcvBuf, rcvQueue, Acks())
    }

    ghost function Cong(): Congestion
      reads this`cwnd, this`ssthresh, this`incr, this`rmtWnd
    {
      Congestion(cwnd, ssthresh, incr, rmtWnd)
    }

    ghost function RttState(): Rtt
      reads this`rxSrtt, this`rxRttval, this`rxRto
    {
      Rtt(rxSrtt, rxRttval, rxRto)
    }

    ghost function ProbeState(): Probe
      reads this`askSend, this`askTell, this`tsProbe, this`probeWait
    {
      Probe(askSend, askTell, tsProbe, probeWait)
    }

    ghost function ClockState(): Clock
      reads this`current, this`tsFlush, this`updated
    {
      Clock(current, tsFlush, updated)
    }

    ghost function State(): Pcb
      requires 2 * ackcount <= acklist.Length
      reads this, acklist
    {
      Pcb(cfg, Snd(), Rcv(), Cong(), RttState(), ProbeState(), ClockState(), dead)
    }

    /** The send-side counters follow their lists and the numbers have 32 bits. */
    ghost predicate SndCoherent()
      reads this`sndBuf, this`nsndBuf, this`sndQueue, this`nsndQue
    {
      nsndQue == Wrap32(|sndQueue|) && nsndBuf == Wrap32(|sndBuf|) && U32Segs(sndBuf)
    }

    ghost predicate RcvCoherent()
      reads this`rcvBuf, this`nrcvBuf, this`rcvQueue, this`nrcvQue
    {
      nrcvBuf == Wrap32(|rcvBuf|) && nrcvQue == |rcvQueue| <= cfg.rcvWnd < HALF && U32RcvSegs(rcvBuf)
    }

    /** The ack array has room for the acks in it. */
    ghost predicate AcksCoherent()
      reads this`acklist, this`ackcount, this`ackblock
    {
      ackcount <= ackblock && acklist.Length == 2 * ackblock
    }

    ghost predicate Coherent()
      reads this, acklist
    {
      SndCoherent() && RcvCoherent() && AcksCoherent() && ValidConfig(cfg)
    }

    /** Between two calls the state is also one of an Exact endpoint seen modulo
        2^32, and every fragment fits the mss. */
    ghost predicate Valid()
      reads this, acklist
    {
      Coherent() && U32Ok(State()) && Fits(State())
    }

    /** Between two calls the four counters are the lengths of their lists, and three of
        the lists fit their windows. */
    lemma CountersExact()
      requires Valid()
      ensures nsndBuf == |sndBuf| <= cfg.sndWnd && nrcvBuf == |rcvBuf| <= cfg.rcvWnd
      ensures nrcvQue == |rcvQueue| <= cfg.rcvWnd && (|sndQueue| < 0x1_0000_0000 ==> nsndQue == |sndQueue|)
    {
      hide Fits;
      var p :| EndOk(p) && State() == Refinement.WrapPcb(p);
      SndFits(p.snd, p.cfg.sndWnd);
      RcvFits(p.rcv, p.cfg.rcvWnd);
      assert |State().snd.buf| == |p.snd.buf| && |State().rcv.buf| == |p.rcv.buf|;
    }

    /** ikcp_create, with the configuration the setters have produced. */
    constructor (cfg: Config)
      requires ValidConfig(cfg)
      ensures Valid() && State() == Create(cfg) && fresh(acklist) && output == []
    {
      this.cfg := cfg;
      sndUna, sndNxt, sndQueue, sndBuf, nsndQue, nsndBuf := 0, 0, [], [], 0, 0;
      rcvNxt, rcvBuf, rcvQueue, nrcvBuf, nrcvQue := 0, [], [], 0, 0;
      acklist, ackcount, ackblock := new u32[0], 0, 0;
      cwnd, ssthresh, incr := 0, 2, 0;
      rmtWnd := if cfg.copy.Basic? then 32 else 128;
      rxSrtt, rxRttval, rxRto := 0, 0, 200;
      askSend, askTell, tsProbe, probeWait := false, false, 0, 0;
      current, tsFlush, updated, dead, output := 0, 100, false, false, [];
      new;
      AnyCallsOk(cfg, []);
    }

    // --------------------------------------------------------- incoming acks

    /** ikcp_update_ack */
    method UpdateAck(rtt: nat)
      modifies this`rxSrtt, this`rxRttval, this`rxRto
      ensures RttState() == KcpSpec.UpdateAck(cfg, old(RttState()), rtt)
    {
      if rxSrtt == 0 {
        rxSrtt := rtt;
        rxRttval := rtt / 2;
      } else {
        var delta := Int32(rtt - rxSrtt);
        if delta < 0 {
          delta := -delta;
        }
        rxRttval := Int32(TruncDiv(Int32(3 * rxRttval) + delta, 4));
        rxSrtt := TruncDiv(Int32(Int32(7 * rxSrtt) + rtt), 8);
        if rxSrtt < 1 {
          rxSrtt := 1;
        }
      }
      var rto := Wrap32(rxSrtt + Max(cfg.interval, Wrap32(4 * rxRttval)));
      rxRto := Wrap32(Bound(cfg.minrto, rto, RTO_MAX));
    }

    /** ikcp_shrink_buf */
    method ShrinkBuf()
      requires SndCoherent()
      modifies this`sndUna
      ensures Snd() == KcpSpec.ShrinkBuf(old(Snd()))
    {
      if sndBuf != [] {
        assert sndBuf[0] in sndBuf;
        sndUna := sndBuf[0].sn;
      } else {
        sndUna := sndNxt;
      }
    }

    /** ikcp_parse_una */
    method ParseUna(una: u32)
      requires SndCoherent()
      modifies this`sndBuf, this`nsndBuf
      ensures SndCoherent() && sndBuf == KcpSpec.ParseUna(Wrapping, old(sndBuf), una)
    {
      while sndBuf != [] && TimeDiff(una, sndBuf[0].sn) > 0
        invariant KcpSpec.ParseUna(Wrapping, sndBuf, una) == KcpSpec.ParseUna(Wrapping, old(sndBuf), una)
        invariant SndCoherent()
        decreases |sndBuf|
      {
        CountDown(|sndBuf|);
        sndBuf := sndBuf[1..];
        nsndBuf := Wrap32(nsndBuf - 1);
      }
    }

    /** ikcp_parse_ack */
    method ParseAck(sn: u32)
      requires SndCoherent()
      modifies this`sndBuf, this`nsndBuf
      ensures SndCoherent() && Snd() == KcpSpec.ParseAck(Wrapping, old(Snd()), sn)
    {
      if TimeDiff(sn, sndUna) < 0 || TimeDiff(sn, sndNxt) >= 0 {
        return;
      }
      var i := 0;
      while i < |sndBuf|
        invariant i <= |sndBuf| && sndBuf == old(sndBuf) && nsndBuf == old(nsndBuf)
        invariant RemoveAcked(Wrapping, sndBuf, sn) == sndBuf[..i] + RemoveAcked(Wrapping, sndBuf[i..], sn)
      {
        if sn == sndBuf[i].sn {
          RemoveAckedHit(sndBuf, i, sn);
          CountDown(|sndBuf|);
          sndBuf := sndBuf[..i] + sndBuf[i + 1..];
          nsndBuf := Wrap32(nsndBuf - 1);
          return;
        }
        if TimeDiff(sn, sndBuf[i].sn) < 0 {
          RemoveAckedStop(sndBuf, i, sn);
          return;
        }
        RemoveAckedGo(sndBuf, i, sn);
        i := i + 1;
      }
      assert sndBuf[i..] == [] && sndBuf[..i] == sndBuf;
    }

    /** ikcp_parse_fastack */
    method ParseFastack(sn: u32)
      requires SndCoherent()
      modifies this`sndBuf
      ensures SndCoherent() && Snd() == KcpSpec.ParseFastack(Wrapping, old(Snd()), sn)
    {
      if TimeDiff(sn, sndUna) < 0 || TimeDiff(sn, sndNxt) >= 0 {
        return;
      }
      var i := 0;
      while i < |sndBuf|
        invariant i <= |sndBuf| && SndCoherent()
        invariant CountSkipped(Wrapping, old(sndBuf), sn) == sndBuf[..i] + CountSkipped(Wrapping, sndBuf[i..], sn)
      {
        ghost var buf := sndBuf;
        if TimeDiff(sn, sndBuf[i].sn) < 0 {
          CountSkippedStop(buf, i, sn);
          return;
        }
        if sn != sndBuf[i].sn {
          assert sndBuf[i] in sndBuf;
          sndBuf := sndBuf[i := sndBuf[i].(fastack := Wrap32(sndBuf[i].fastack + 1))];
        }
        CountSkippedGo(buf, i, sn, sndBuf);
        i := i + 1;
      }
      assert sndBuf[..i] == sndBuf && sndBuf[i..] == [];
    }

    // -------------------------------------------------------- incoming pushes

    /** The growth of the ack array: the next power of two that is large enough. */
    method GrowAcks()
      requires AcksCoherent()
      modifies this`acklist, this`ackblock
      ensures AcksCoherent() && ackcount < ackblock && fresh(acklist)
      ensures acklist[..2 * ackcount] == old(acklist[..2 * ackcount])
    {
      var newblock := 8;
      while newblock < ackcount + 1
        invariant newblock >= 8
        decreases ackcount + 1 - newblock
      {
        newblock := 2 * newblock;
      }
      var list := new u32[2 * newblock];
      for x := 0 to ackcount
        modifies list
        invariant forall j :: 0 <= j < 2 * x ==> list[j] == acklist[j]
      {
        list[2 * x] := acklist[2 * x];
        list[2 * x + 1] := acklist[2 * x + 1];
      }
      assert list[..2 * ackcount] == acklist[..2 * ackcount];
      acklist, ackblock := list, newblock;
    }

    /** ikcp_ack_push */
    method AckPush(sn: u32, ts: u32)
      requires AcksCoherent()
      modifies this`acklist, this`ackcount, this`ackblock, acklist
      ensures AcksCoherent() && (acklist == old(acklist) || fresh(acklist))
      ensures Acks() == old(Acks()) + [Ack(sn, ts)]
    {
      hide PairUp;
      if ackcount + 1 > ackblock {
        GrowAcks();
      }
      ghost var before := acklist[..2 * ackcount];
      acklist[2 * ackcount] := sn;
      acklist[2 * ackcount + 1] := ts;
      PairUpAppend(before, ackcount, sn, ts);
      ackcount := ackcount + 1;
      assert acklist[..2 * ackcount] == before + [sn, ts];
    }

    /** The loop that moves in-order segments to rcv_queue. */
    method MoveReady()
      requires RcvCoherent() && AcksCoherent()
      modifies this`rcvBuf, this`rcvQueue, this`rcvNxt, this`nrcvBuf, this`nrcvQue
      ensures RcvCoherent() && Rcv() == KcpSpec.MoveReady(Wrapping, old(Rcv()), cfg.rcvWnd)
    {
      while rcvBuf != [] && rcvBuf[0].sn == rcvNxt && nrcvQue < cfg.rcvWnd
        invariant KcpSpec.MoveReady(Wrapping, Rcv(), cfg.rcvWnd) == KcpSpec.MoveReady(Wrapping, old(Rcv()), cfg.rcvWnd)
        invariant RcvCoherent()
        decreases |rcvBuf|
      {
        CountDown(|rcvBuf|);
        var g := rcvBuf[0];
        rcvBuf, nrcvBuf := rcvBuf[1..], Wrap32(nrcvBuf - 1);
        rcvQueue, nrcvQue := rcvQueue + [g.frag], nrcvQue + 1;
        rcvNxt := Wrap32(rcvNxt + 1);
      }
    }

    /** The scan of rcv_buf from its tail, and the insertion after the segment found. */
    method InsertSegment(seg: RcvSeg)
      requires RcvCoherent() && 0 <= seg.sn < 0x1_0000_0000
      modifies this`rcvBuf, this`nrcvBuf
      ensures RcvCoherent() && rcvBuf == Insert(Wrapping, old(rcvBuf), seg)
    {
      var i := |rcvBuf|;
      assert rcvBuf[..i] == rcvBuf && rcvBuf[i..] == [];
      while i > 0
        invariant 0 <= i <= |rcvBuf| && rcvBuf == old(rcvBuf) && nrcvBuf == old(nrcvBuf)
        invariant Insert(Wrapping, rcvBuf, seg) == Insert(Wrapping, rcvBuf[..i], seg) + rcvBuf[i..]
      {
        if rcvBuf[i - 1].sn == seg.sn {
          InsertSame(rcvBuf, i, seg);
          return;
        }
        if TimeDiff(seg.sn, rcvBuf[i - 1].sn) > 0 {
          break;
        }
        InsertBefore(rcvBuf, i, seg);
        i := i - 1;
      }
      InsertHere(rcvBuf, i, seg);
      CountUp(|rcvBuf|);
      rcvBuf := rcvBuf[..i] + [seg] + rcvBuf[i..];
      nrcvBuf := Wrap32(nrcvBuf + 1);
    }

    /** ikcp_parse_data */
    method ParseData(seg: RcvSeg)
      requires RcvCoherent() && AcksCoherent() && 0 <= seg.sn < 0x1_0000_0000
      modifies this`rcvBuf, this`rcvQueue, this`rcvNxt, this`nrcvBuf, this`nrcvQue
      ensures RcvCoherent() && Rcv() == KcpSpec.ParseData(Wrapping, old(Rcv()), cfg.rcvWnd, seg)
    {
      if TimeDiff(seg.sn, Wrap32(rcvNxt + cfg.rcvWnd)) >= 0 || TimeDiff(seg.sn, rcvNxt) < 0 {
        return;
      }
      InsertSegment(seg);
      MoveReady();
    }

    // ------------------------------------------------------------------ input

    /** The congestion-window growth at the end of ikcp_input. */
    method GrowWindow()
      requires cfg.mss > 0
      modifies this`cwnd, this`incr
      ensures Cong() == Grow(cfg, old(Cong()))
    {
      var mss := cfg.mss;
      if cwnd < rmtWnd {
        if cwnd < ssthresh {
          cwnd := Wrap32(cwnd + 1);
          incr := Wrap32(incr + mss);
        } else {
          if incr < mss {
            incr := Wrap32(mss);
          }
          incr := if incr == 0 then 0 else Wrap32(incr + Wrap32(mss * mss) / incr + mss / 16);
          if Wrap32(Wrap32(cwnd + 1) * mss) <= incr {
            cwnd := if cfg.copy.Basic? then Wrap32(cwnd + 1) else Wrap32(Wrap32(incr + mss - 1) / mss);
          }
        }
        if cwnd > rmtWnd {
          cwnd := rmtWnd;
          incr := Wrap32(rmtWnd * mss);
        }
      }
    }

    /** The ack branch of ikcp_input. */
    method AcceptAck(w: Wire)
      requires SndCoherent() && OnWire(w)
      modifies this`sndUna, this`sndBuf, this`nsndBuf, this`rxSrtt, this`rxRttval, this`rxRto
      ensures SndCoherent() && Snd() == KcpSpec.ShrinkBuf(KcpSpec.ParseAck(Wrapping, old(Snd()), w.sn))
      ensures RttState() == if TimeDiff(current, w.ts) >= 0
                            then KcpSpec.UpdateAck(cfg, old(RttState()), TimeDiff(current, w.ts)) else old(RttState())
    {
      var rtt := TimeDiff(current, w.ts);
      if rtt >= 0 {
        UpdateAck(rtt);
      }
      ParseAck(w.sn);
      ShrinkBuf();
    }

    /** The push branch of ikcp_input. */
    method AcceptPush(w: Wire)
      requires RcvCoherent() && AcksCoherent() && OnWire(w)
      modifies this`rcvBuf, this`rcvQueue, this`rcvNxt, this`nrcvBuf, this`nrcvQue
      modifies this`acklist, this`ackcount, this`ackblock, acklist
      ensures RcvCoherent() && AcksCoherent() && (acklist == old(acklist) || fresh(acklist))
      ensures Rcv() == ReceivePush(Wrapping, old(Rcv()), cfg.rcvWnd, w)
    {
      ghost var r := Rcv();
      if TimeDiff(w.sn, Wrap32(rcvNxt + cfg.rcvWnd)) < 0 {
        AckPush(w.sn, w.ts);
        assert Rcv() == r.(acks := r.acks + [Ack(w.sn, w.ts)]);
        if TimeDiff(w.sn, rcvNxt) >= 0 {
          ParseData(RcvSeg(w.sn, Frag(w.frg, w.data)));
        }
      }
    }

    /** What every segment does first: window, una, shrink. */
    method AcceptHeader(w: Wire)
      requires SndCoherent() && OnWire(w)
      modifies this`sndUna, this`sndBuf, this`nsndBuf, this`rmtWnd
      ensures SndCoherent() && Cong() == old(Cong()).(rmtWnd := w.wnd)
      ensures Snd() == KcpSpec.ShrinkBuf(old(Snd()).(buf := KcpSpec.ParseUna(Wrapping, old(sndBuf), w.una)))
    {
      rmtWnd := w.wnd;
      ParseUna(w.una);
      ShrinkBuf();
    }

    method InputAckSegment(w: Wire)
      requires SndCoherent() && OnWire(w) && w.cmd == CMD_ACK
      modifies this`sndUna, this`sndBuf, this`nsndBuf, this`rxSrtt, this`rxRttval, this`rxRto, this`rmtWnd
      ensures SndCoherent() && Snd() == InputSnd(Wrapping, old(Snd()), w)
      ensures Cong() == old(Cong()).(rmtWnd := w.wnd)
      ensures RttState() == if TimeDiff(current, w.ts) >= 0
                            then KcpSpec.UpdateAck(cfg, old(RttState()), TimeDiff(current, w.ts)) else old(RttState())
    {
      AcceptHeader(w);
      AcceptAck(w);
    }

    method InputPushSegment(w: Wire)
      requires SndCoherent() && RcvCoherent() && AcksCoherent() && OnWire(w) && w.cmd == CMD_PUSH
      modifies this`sndUna, this`sndBuf, this`nsndBuf, this`rmtWnd
      modifies this`rcvBuf, this`rcvQueue, this`rcvNxt, this`nrcvBuf, this`nrcvQue
      modifies this`acklist, this`ackcount, this`ackblock, acklist
      ensures SndCoherent() && Snd() == InputSnd(Wrapping, old(Snd()), w)
      ensures Cong() == old(Cong()).(rmtWnd := w.wnd)
      ensures RcvCoherent() && AcksCoherent() && (acklist == old(acklist) || fresh(acklist))
      ensures Rcv() == InputRcv(Wrapping, old(Rcv()), cfg.rcvWnd, w)
    {
      AcceptHeader(w);
      AcceptPush(w);
    }

    method InputProbeSegment(w: Wire)
      requires SndCoherent() && OnWire(w) && w.cmd != CMD_ACK && w.cmd != CMD_PUSH
      modifies this`sndUna, this`sndBuf, this`nsndBuf, this`rmtWnd, this`askTell
      ensures SndCoherent() && Snd() == InputSnd(Wrapping, old(Snd()), w)
      ensures Cong() == old(Cong()).(rmtWnd := w.wnd)
      ensures askTell == (old(askTell) || w.cmd == CMD_WASK)
    {
      AcceptHeader(w);
      if w.cmd == CMD_WASK {
        askTell := true;
      }
    }

    /** One turn of the loop of ikcp_input; flag and maxack are its locals. */
    method InputSegment(w: Wire, flag: bool, maxack: u32) returns (flag1: bool, maxack1: u32)
      requires SndCoherent() && RcvCoherent() && AcksCoherent() && OnWire(w)
      modifies this`sndUna, this`sndBuf, this`nsndBuf, this`rxSrtt, this`rxRttval, this`rxRto, this`rmtWnd
      modifies this`rcvBuf, this`rcvQueue, this`rcvNxt, this`nrcvBuf, this`nrcvQue, this`askTell
      modifies this`acklist, this`ackcount, this`ackblock, acklist
      ensures SndCoherent() && Snd() == InputSnd(Wrapping, old(Snd()), w)
      ensures RcvCoherent() && AcksCoherent() && (acklist == old(acklist) || fresh(acklist))
      ensures Rcv() == InputRcv(Wrapping, old(Rcv()), cfg.rcvWnd, w)
      ensures Cong() == old(Cong()).(rmtWnd := w.wnd)
      ensures RttState() == if w.cmd == CMD_ACK && TimeDiff(current, w.ts) >= 0
                            then KcpSpec.UpdateAck(cfg, old(RttState()), TimeDiff(current, w.ts)) else old(RttState())
      ensures askTell == (old(askTell) || w.cmd == CMD_WASK)
      ensures flag1 == (flag || w.cmd == CMD_ACK)
      ensures maxack1 == if w.cmd != CMD_ACK || (flag && Diff(Wrapping, w.sn, maxack) <= 0) then maxack else w.sn
    {
      flag1, maxack1 := flag, maxack;
      if w.cmd == CMD_ACK {
        InputAckSegment(w);
        if !flag {
          flag1, maxack1 := true, w.sn;
        } else if TimeDiff(w.sn, maxack) > 0 {
          maxack1 := w.sn;
        }
      } else if w.cmd == CMD_PUSH {
        InputPushSegment(w);
      } else {
        InputProbeSegment(w);
      }
    }

    /** The same, in terms of the whole state. */
    method InputTurn(w: Wire, flag: bool, maxack: u32) returns (flag1: bool, maxack1: u32)
      requires Coherent() && OnWire(w)
      modifies this, acklist
      ensures Coherent() && (acklist == old(acklist) || fresh(acklist)) && output == old(output)
      ensures InCtx(State(), flag1, maxack1) == InputWire(Wrapping, InCtx(old(State()), flag, maxack), w)
    {
      hide InputSnd, InputRcv, KcpSpec.UpdateAck, TimeDiff, PairUp, U32Segs, U32RcvSegs, Wrap32, ValidConfig;
      flag1, maxack1 := InputSegment(w, flag, maxack);
    }

    /** The end of ikcp_input, skipped when the parse loop met an error. */
    method Finish(ok: bool, flag: bool, maxack: u32, prevUna: u32)
      requires SndCoherent() && cfg.mss > 0
      modifies this`sndBuf, this`cwnd, this`incr
      ensures SndCoherent()
      ensures Snd() == (if ok && flag then KcpSpec.ParseFastack(Wrapping, old(Snd()), maxack) else old(Snd()))
      ensures Cong() == if ok && TimeDiff(sndUna, prevUna) > 0 then Grow(cfg, old(Cong())) else old(Cong())
    {
      if !ok {
        return;
      }
      if flag {
        ParseFastack(maxack);
      }
      if TimeDiff(sndUna, prevUna) > 0 {
        GrowWindow();
      }
    }

    /** The same, in terms of the whole state. */
    method FinishTurn(ok: bool, flag: bool, maxack: u32, prevUna: u32)
      requires Coherent()
      modifies this`sndBuf, this`cwnd, this`incr
      ensures Coherent()
      ensures State() == FinishInput(Wrapping, InCtx(old(State()), flag, maxack), prevUna, ok)
    {
      Finish(ok, flag, maxack, prevUna);
    }

    /** The checks at the head of the loop of ikcp_input: ret is 0 and w the next
        segment, or ret is the error it returns. */
    method NextSegment(b: seq<byte>) returns (ret: int, w: Wire, rest: seq<byte>)
      requires |b| >= OVERHEAD
      ensures |rest| < |b|
      ensures ret == 0 ==>
                && OnWire(w)
                && Parse(cfg.conv, b) == Parsed([w] + Parse(cfg.conv, rest).wires, Parse(cfg.conv, rest).status)
      ensures ret != 0 ==> Parse(cfg.conv, b) == Parsed([], ret)
    {
      w, rest := Wire(0, 0, 0, 0, 0, 0, 0, []), [];
      if U32At(b, 0) != cfg.conv {
        ret := -1;
        return;
      }
      var len := U32At(b, 20);
      if |b| - OVERHEAD < len {
        ret := -2;
        return;
      }
      if !KnownCmd(b[4]) {
        ret := -3;
        return;
      }
      ParseNext(cfg.conv, b);
      ret, w, rest := 0, Decode(b, len), b[OVERHEAD + len..];
    }

    /** The parse loop of ikcp_input. */
    method InputLoop(data: seq<byte>) returns (ret: int, flag: bool, maxack: u32)
      requires Coherent()
      modifies this, acklist
      ensures Coherent() && (acklist == old(acklist) || fresh(acklist)) && output == old(output)
      ensures ret == Parse(cfg.conv, data).status
      ensures InCtx(State(), flag, maxack) == InputWires(Wrapping, InCtx(old(State()), false, 0), Parse(cfg.conv, data).wires)
    {
      ghost var all := Parse(cfg.conv, data);
      ghost var goal := InputWires(Wrapping, InCtx(State(), false, 0), all.wires);
      flag, maxack := false, 0;
      var b := data;
      while |b| >= OVERHEAD
        invariant Coherent() && (acklist == old(acklist) || fresh(acklist)) && output == old(output)
        invariant Parse(cfg.conv, b).status == all.status
        invariant InputWires(Wrapping, InCtx(State(), flag, maxack), Parse(cfg.conv, b).wires) == goal
        decreases |b|
      {
        var w, rest;
        ret, w, rest := NextSegment(b);
        if ret != 0 {
          return;
        }
        InputWiresCons(InCtx(State(), flag, maxack), w, Parse(cfg.conv, rest).wires);
        flag, maxack := InputTurn(w, flag, maxack);
        b := rest;
      }
      ret := 0;
    }

    method ProcessInput(data: seq<byte>) returns (ret: int)
      requires Coherent()
      modifies this, acklist
      ensures Coherent() && (acklist == old(acklist) || fresh(acklist)) && output == old(output)
      ensures State() == InputBytes(old(State()), data) && ret == Parse(cfg.conv, data).status
    {
      var prevUna, flag, maxack := sndUna, false, 0;
      ret, flag, maxack := InputLoop(data);
      FinishTurn(ret == 0, flag, maxack, prevUna);
    }

    /** ikcp_input */
    method Input(data: seq<byte>) returns (ret: int)
      requires Valid()
      modifies this, acklist
      ensures Valid() && (acklist == old(acklist) || fresh(acklist)) && output == old(output)
      ensures State() == InputBytes(old(State()), data)
      ensures ret == if |data| < OVERHEAD then -1 else Parse(cfg.conv, data).status
    {
      CallOk(State(), CallInput(data));
      if |data| < OVERHEAD {
        return -1;
      }
      ret := ProcessInput(data);
    }

    // ------------------------------------------------------------ the user side

    /** ikcp_peeksize */
    method PeekSize() returns (size: int)
      requires RcvCoherent()
      ensures size == KcpSpec.PeekSize(rcvQueue)
    {
      if rcvQueue == [] {
        return -1;
      }
      if rcvQueue[0].frg == 0 {
        return |rcvQueue[0].data|;
      }
      if nrcvQue < rcvQueue[0].frg + 1 {
        return -1;
      }
      size := 0;
      var i := 0;
      assert rcvQueue[0..] == rcvQueue;
      while i < |rcvQueue|
        invariant i <= |rcvQueue| && |HeadBytes(rcvQueue)| == size + |HeadBytes(rcvQueue[i..])|
      {
        size := size + |rcvQueue[i].data|;
        assert rcvQueue[i..][1..] == rcvQueue[i + 1..];
        if rcvQueue[i].frg == 0 {
          return;
        }
        i := i + 1;
      }
    }

    /** The merge loop of ikcp_recv: it copies one message and, unless peeking,
        takes its fragments off rcv_queue. */
    method MergeFragments(peek: bool) returns (data: seq<byte>)
      requires RcvCoherent()
      modifies this`rcvQueue, this`nrcvQue
      ensures RcvCoherent() && data == HeadBytes(old(rcvQueue))
      ensures rcvQueue == if peek then old(rcvQueue) else old(rcvQueue)[HeadCount(old(rcvQueue))..]
    {
      ghost var queue := rcvQueue;
      data := [];
      var i := 0;
      assert queue[0..] == queue;
      while (if peek then i else 0) < |rcvQueue|
        invariant i <= |queue| && RcvCoherent()
        invariant rcvQueue == if peek then queue else queue[i..]
        invariant HeadBytes(queue) == data + HeadBytes(queue[i..]) && HeadCount(queue) == i + HeadCount(queue[i..])
        decreases |queue| - i
      {
        var f := rcvQueue[if peek then i else 0];
        assert f == queue[i];
        HeadStep(queue, i);
        data := data + f.data;
        if !peek {
          rcvQueue, nrcvQue := rcvQueue[1..], nrcvQue - 1;
        }
        i := i + 1;
        if f.frg == 0 {
          return;
        }
      }
    }

    /** The part of ikcp_recv after its checks. */
    method TakeMessage(peek: bool) returns (data: seq<byte>)
      requires RcvCoherent() && AcksCoherent()
      modifies this`rcvBuf, this`rcvQueue, this`rcvNxt, this`nrcvBuf, this`nrcvQue, this`askTell
      ensures RcvCoherent() && data == HeadBytes(old(rcvQueue))
      ensures Rcv() == KcpSpec.MoveReady(Wrapping,
                         if peek then old(Rcv()) else old(Rcv()).(queue := old(rcvQueue)[HeadCount(old(rcvQueue))..]), cfg.rcvWnd)
      ensures askTell == (old(askTell) || (|old(rcvQueue)| >= cfg.rcvWnd && |rcvQueue| < cfg.rcvWnd))
    {
      var recover := nrcvQue >= cfg.rcvWnd;
      data := MergeFragments(peek);
      MoveReady();
      if nrcvQue < cfg.rcvWnd && recover {
        askTell := true;
      }
    }

    /** ikcp_recv on the receive side alone. */
    method Receive(len: int) returns (ret: int, data: seq<byte>)
      requires RcvCoherent() && AcksCoherent()
      modifies this`rcvBuf, this`rcvQueue, this`rcvNxt, this`nrcvBuf, this`nrcvQue, this`askTell
      ensures RcvCoherent()
      ensures var v := KcpSpec.Recv(Wrapping, old(Rcv()), cfg.rcvWnd, len);
              Rcv() == v.rcv && askTell == (old(askTell) || v.tell) && ret == v.ret && data == v.data
    {
      data := [];
      if rcvQueue == [] {
        ret := -1;
        return;
      }
      var peeked := PeekSize();
      if peeked < 0 {
        ret := -2;
        return;
      }
      if peeked > (if len < 0 then -len else len) {
        ret := -3;
        return;
      }
      data := TakeMessage(len < 0);
      ret := |data|;
    }

    /** The same, in terms of the whole state. */
    method ReceiveTurn(len: int) returns (ret: int, data: seq<byte>)
      requires Coherent()
      modifies this`rcvBuf, this`rcvQueue, this`rcvNxt, this`nrcvBuf, this`nrcvQue, this`askTell
      ensures Coherent()
      ensures var v := KcpSpec.Recv(Wrapping, old(Rcv()), cfg.rcvWnd, len);
              && State() == old(State()).(rcv := v.rcv, probe := old(ProbeState()).(tell := old(askTell) || v.tell))
              && ret == v.ret && data == v.data
    {
      hide KcpSpec.Recv, PairUp, U32Segs, U32RcvSegs, Wrap32, ValidConfig;
      ret, data := Receive(len);
    }

    /** ikcp_recv: the value returned and the bytes copied; len < 0 asks for a peek. */
    method Recv(len: int) returns (ret: int, data: seq<byte>)
      requires Valid()
      modifies this`rcvBuf, this`rcvQueue, this`rcvNxt, this`nrcvBuf, this`nrcvQue, this`askTell
      ensures Valid() && State() == AfterCall(old(State()), CallRecv(len))
      ensures var v := KcpSpec.Recv(Wrapping, old(Rcv()), cfg.rcvWnd, len);
              ret == v.ret && data == v.data
    {
      CallOk(State(), CallRecv(len));
      ret, data := ReceiveTurn(len);
    }

    /** The fragment loop of ikcp_send. */
    method CutIntoQueue(data: seq<byte>, count: nat)
      requires SndCoherent() && count <= 256
      modifies this`sndQueue, this`nsndQue
      ensures SndCoherent() && sndQueue == old(sndQueue) + Cut(cfg.mss, data, count, cfg.stream)
    {
      var rest := data;
      var i := 0;
      while i < count
        invariant i <= count && SndCoherent()
        invariant sndQueue + Cut(cfg.mss, rest, count - i, cfg.stream) == old(sndQueue) + Cut(cfg.mss, data, count, cfg.stream)
      {
        var size := Min(|rest|, cfg.mss);
        CountUp(|sndQueue|);
        ghost var before := sndQueue;
        var f := Frag(if cfg.stream then 0 else count - i - 1, rest[..size]);
        sndQueue, nsndQue := sndQueue + [f], Wrap32(nsndQue + 1);
        rest := rest[size..];
        i := i + 1;
        assert sndQueue + Cut(cfg.mss, rest, count - i, cfg.stream) == before + ([f] + Cut(cfg.mss, rest, count - i, cfg.stream));
      }
    }

    /** In stream mode the last queued segment is filled up first. */
    method FillLast(msg: seq<byte>) returns (sent: nat)
      requires SndCoherent()
      modifies this`sndQueue
      ensures SndCoherent() && sent == StreamExtend(cfg, old(sndQueue), msg)
      ensures sndQueue == StreamAppend(cfg, old(sndQueue), msg)
    {
      sent := 0;
      if cfg.stream && sndQueue != [] {
        var last := sndQueue[|sndQueue| - 1];
        if |last.data| < cfg.mss {
          sent := Min(|msg|, cfg.mss - |last.data|);
          sndQueue := sndQueue[..|sndQueue| - 1] + [Frag(0, last.data + msg[..sent])];
        }
      }
    }

    /** ikcp_send on the send queue alone. */
    method Enqueue(msg: seq<byte>) returns (ret: int)
      requires SndCoherent() && cfg.mss > 0
      modifies this`sndQueue, this`nsndQue
      ensures SndCoherent() && KcpSpec.Send(cfg, old(sndQueue), msg) == SendResult(sndQueue, ret)
    {
      var sent := FillLast(msg);
      if cfg.stream && |msg| - sent <= 0 {
        return if cfg.copy.Basic? then 0 else sent;
      }
      var rest := msg[sent..];
      var count := if |rest| <= cfg.mss then 1 else (|rest| + cfg.mss - 1) / cfg.mss;
      if TooManyFrags(cfg.copy, count) {
        return if cfg.copy.Extended? && cfg.stream && sent > 0 then sent else -2;
      }
      CutIntoQueue(rest, count);
      return if cfg.copy.Basic? then 0 else |msg|;
    }

    /** ikcp_send; a negative length is refused. */
    method Send(buffer: seq<byte>, len: int) returns (ret: int)
      requires Valid() && len <= |buffer|
      modifies this`sndQueue, this`nsndQue
      ensures Valid()
      ensures len < 0 ==> ret == -1 && State() == old(State())
      ensures len >= 0 ==> State() == AfterCall(old(State()), CallSend(buffer[..len]))
      ensures len >= 0 ==> ret == KcpSpec.Send(cfg, old(sndQueue), buffer[..len]).ret
    {
      hide KcpSpec.Send, U32Ok, Fits, RcvCoherent, PairUp, U32Segs, Wrap32;
      if len < 0 {
        return -1;
      }
      CallOk(State(), CallSend(buffer[..len]));
      ret := Enqueue(buffer[..len]);
    }

    // ------------------------------------------------------------------ output

    /** The datagrams put out since base, and what is in the buffer, are the segments
        ws, packed and encoded. */
    ghost predicate Emitted(base: seq<seq<byte>>, ws: seq<Wire>, buf: seq<byte>)
      reads this`output
    {
      output == base + EncodeEach(PutAll(cfg.mtu, ws).out) && buf == EncodeAll(PutAll(cfg.mtu, ws).cur)
    }

    /** Before a segment is encoded a buffer it would overfill is put out. */
    method Append(buf: seq<byte>, w: Wire, ghost base: seq<seq<byte>>, ghost ws: seq<Wire>) returns (next: seq<byte>)
      requires Emitted(base, ws, buf)
      modifies this`output
      ensures Emitted(base, ws + [w], next)
    {
      PutEncodes(cfg.mtu, ws, w);
      next := buf;
      if |buf| + OVERHEAD + |w.data| > cfg.mtu {
        if |buf| > 0 {
          output := output + [buf];
        }
        next := [];
      }
      next := next + Encode(w);
    }

    /** What the scratch segment of ikcp_flush holds while the flush of s runs. */
    ghost predicate Scratch(s: Pcb, wnd: u16)
      reads this`rcvNxt, this`current
    {
      s.cfg == cfg && s.clock.current == current && s.rcv.nxt == rcvNxt && wnd == Unused(s)
    }

    /** ikcp_wnd_unused, as truncated into the header. */
    method WndUnused() returns (wnd: u16)
      requires RcvCoherent()
      ensures wnd == if |rcvQueue| < cfg.rcvWnd then Wrap16(cfg.rcvWnd - |rcvQueue|) else 0
    {
      wnd := if nrcvQue < cfg.rcvWnd then Wrap16(cfg.rcvWnd - nrcvQue) else 0;
    }

    /** The loop over the pending acks; sn and ts stay in the scratch segment. */
    method EmitAcks(wnd: u16, ghost s: Pcb) returns (buf: seq<byte>, sn: u32, ts: u32)
      requires AcksCoherent() && Scratch(s, wnd) && s.rcv.acks == Acks()
      modifies this`output, this`ackcount
      ensures AcksCoherent() && Acks() == []
      ensures Emitted(old(output), AckWires(s), buf)
      ensures LastAck(s.rcv.acks) == Ack(sn, ts)
    {
      buf, sn, ts := [], 0, 0;
      ghost var list := acklist[..2 * ackcount];
      ghost var base := output;
      assert AckWires(s)[..0] == [];
      for i := 0 to ackcount
        modifies this`output
        invariant Emitted(base, AckWires(s)[..i], buf)
        invariant LastAck(s.rcv.acks[..i]) == Ack(sn, ts)
      {
        sn, ts := acklist[2 * i], acklist[2 * i + 1];
        AckWiresGrow(s, list, i);
        buf := Append(buf, Wire(cfg.conv, CMD_ACK, 0, wnd, ts, sn, rcvNxt, []), base, AckWires(s)[..i]);
      }
      assert AckWires(s)[..ackcount] == AckWires(s) && s.rcv.acks[..ackcount] == s.rcv.acks;
      ackcount := 0;
    }

    /** The probe timer of ikcp_flush. */
    method RunProbeTimer()
      modifies this`askSend, this`tsProbe, this`probeWait
      ensures ProbeState() == ProbeTimer(Wrapping, old(ProbeState()), rmtWnd, current)
    {
      if rmtWnd == 0 {
        if probeWait == 0 {
          probeWait := PROBE_INIT;
          tsProbe := Wrap32(current + probeWait);
        } else if TimeDiff(current, tsProbe) >= 0 {
          if probeWait < PROBE_INIT {
            probeWait := PROBE_INIT;
          }
          probeWait := Wrap32(probeWait + probeWait / 2);
          if probeWait > PROBE_LIMIT {
            probeWait := PROBE_LIMIT;
          }
          tsProbe := Wrap32(current + probeWait);
          askSend := true;
        }
      } else {
        tsProbe := 0;
        probeWait := 0;
      }
    }

    /** One window probe, if it is wanted. */
    method EmitProbe(wanted: bool, buf: seq<byte>, w: Wire, ghost base: seq<seq<byte>>, ghost ws: seq<Wire>)
      returns (next: seq<byte>)
      requires Emitted(base, ws, buf)
      modifies this`output
      ensures Emitted(base, ws + (if wanted then [w] else []), next)
    {
      next := buf;
      if wanted {
        next := Append(buf, w, base, ws);
      } else {
        assert ws + [] == ws;
      }
    }

    /** The window probes; both flags are cleared. */
    method EmitProbes(buf: seq<byte>, wnd: u16, sn: u32, ts: u32, ghost base: seq<seq<byte>>, ghost s: Pcb, ghost ctl: seq<Wire>)
      returns (next: seq<byte>)
      requires Emitted(base, ctl, buf) && Scratch(s, wnd) && LastAck(s.rcv.acks) == Ack(sn, ts)
      modifies this`output, this`askSend, this`askTell
      ensures ProbeState() == old(ProbeState()).(ask := false, tell := false)
      ensures Emitted(base, ctl + ProbeWires(s, old(ProbeState())), next)
    {
      ProbeWiresSplit(s, ProbeState(), ctl);
      next := EmitProbe(askSend, buf, Wire(cfg.conv, CMD_WASK, 0, wnd, ts, sn, rcvNxt, []), base, ctl);
      ghost var asked := ctl + (if askSend then [ProbeWire(s, CMD_WASK)] else []);
      next := EmitProbe(askTell, next, Wire(cfg.conv, CMD_WINS, 0, wnd, ts, sn, rcvNxt, []), base, asked);
      askSend, askTell := false, false;
    }

    /** The loop that numbers queued fragments. */
    method AdmitSegments(window: nat)
      requires SndCoherent()
      modifies this`sndQueue, this`sndBuf, this`nsndQue, this`nsndBuf, this`sndNxt
      ensures SndCoherent() && Snd() == Admit(Wrapping, old(Snd()), window, current, rxRto)
    {
      hide TimeDiff;
      while TimeDiff(sndNxt, Wrap32(sndUna + window)) < 0 && sndQueue != []
        invariant SndCoherent()
        invariant Admit(Wrapping, Snd(), window, current, rxRto) == Admit(Wrapping, old(Snd()), window, current, rxRto)
        decreases |sndQueue|
      {
        CountDown(|sndQueue|);
        CountUp(|sndBuf|);
        var f := sndQueue[0];
        sndQueue, nsndQue := sndQueue[1..], Wrap32(nsndQue - 1);
        sndBuf, nsndBuf := sndBuf + [SndSeg(sndNxt, f, current, rxRto, 0, 0)], Wrap32(nsndBuf + 1);
        sndNxt := Wrap32(sndNxt + 1);
      }
    }

    /** What the transmission loop decides about one segment. */
    method Decide(g: SndSeg) returns (next: SndSeg, verdict: Verdict)
      ensures next == Touch(Wrapping, cfg, current, rxRto, g) && verdict == Judge(Wrapping, cfg, current, g)
    {
      var resent := Resent(cfg);
      var rtomin := if cfg.nodelay == 0 then rxRto / 8 else 0;
      next, verdict := g, Keep;
      if g.xmit == 0 {
        verdict := First;
        next := g.(xmit := 1, rto := rxRto, resendts := Wrap32(current + rxRto + rtomin));
      } else if TimeDiff(current, g.resendts) >= 0 {
        verdict := Timeout;
        var rto := Backoff(cfg, rxRto, g.rto);
        next := g.(xmit := Wrap32(g.xmit + 1), rto := rto, resendts := Wrap32(current + rto));
      } else if g.fastack >= resent {
        if cfg.copy.Basic? || Signed32(g.xmit) <= cfg.fastlimit || cfg.fastlimit <= 0 {
          verdict := Fast;
          next := g.(xmit := Wrap32(g.xmit + 1), fastack := 0, resendts := Wrap32(current + g.rto));
        }
      }
    }

    /** Encodes one segment if its verdict asks for it. */
    method Transmit(g: SndSeg, verdict: Verdict, buf: seq<byte>, wnd: u16, ghost base: seq<seq<byte>>, ghost ws: seq<Wire>)
      returns (next: seq<byte>)
      requires Emitted(base, ws, buf)
      modifies this`output, this`dead
      ensures dead == (old(dead) || (!verdict.Keep? && g.xmit >= cfg.deadLink))
      ensures var w := Wire(cfg.conv, CMD_PUSH, g.frag.frg, wnd, current, g.sn, rcvNxt, g.frag.data);
              Emitted(base, ws + (if verdict.Keep? then [] else [w]), next)
    {
      next := buf;
      if !verdict.Keep? {
        var w := Wire(cfg.conv, CMD_PUSH, g.frag.frg, wnd, current, g.sn, rcvNxt, g.frag.data);
        next := Append(buf, w, base, ws);
        if g.xmit >= cfg.deadLink {
          dead := true;
        }
      } else {
        assert ws + [] == ws;
      }
    }

    /** One turn of the transmission loop. */
    method VisitSegment(i: nat, buf: seq<byte>, wnd: u16, ghost base: seq<seq<byte>>, ghost ws: seq<Wire>, ghost s: Pcb)
      returns (next: seq<byte>, verdict: Verdict)
      requires i < |sndBuf| && Emitted(base, ws, buf) && Scratch(s, wnd)
      modifies this`sndBuf, this`dead, this`output
      ensures sndBuf == old(sndBuf)[i := Touch(Wrapping, cfg, current, rxRto, old(sndBuf)[i])]
      ensures verdict == Judge(Wrapping, cfg, current, old(sndBuf)[i])
      ensures Emitted(base, ws + Transmission(s, old(sndBuf)[i]), next)
      ensures dead == (old(dead) || Kills(cfg, current, old(sndBuf)[i]))
    {
      hide Emitted;
      var g;
      g, verdict := Decide(sndBuf[i]);
      sndBuf := sndBuf[i := g];
      next := Transmit(g, verdict, buf, wnd, base, ws);
    }

    /** The transmission loop over snd_buf. */
    method EmitSegments(buf: seq<byte>, wnd: u16, ghost base: seq<seq<byte>>, ghost s: Pcb, ghost ctl: seq<Wire>)
      returns (next: seq<byte>, change: bool, lost: bool)
      requires Emitted(base, ctl, buf) && Scratch(s, wnd)
      modifies this`sndBuf, this`dead, this`output
      ensures sndBuf == TouchAll(Wrapping, cfg, current, rxRto, old(sndBuf))
      ensures Emitted(base, ctl + PushWires(Wrapping, s, old(sndBuf)), next)
      ensures change == HasVerdict(Wrapping, cfg, current, old(sndBuf), Fast)
      ensures lost == HasVerdict(Wrapping, cfg, current, old(sndBuf), Timeout)
      ensures dead == (old(dead) || LinkDies(Wrapping, cfg, current, old(sndBuf)))
    {
      ghost var b, died := sndBuf, dead;
      ghost var ws := ctl;
      next, change, lost := buf, false, false;
      PassStart(s, rxRto, b, ctl, died);
      for i := 0 to |sndBuf|
        invariant |sndBuf| == |b|
        invariant Emitted(base, ws, next)
        invariant Passed(s, rxRto, b, i, ctl, died, Pass(sndBuf, ws, change, lost, dead))
      {
        PassStep(s, rxRto, b, i, ctl, died, Pass(sndBuf, ws, change, lost, dead));
        var verdict;
        ghost var grown := ws + Transmission(s, sndBuf[i]);
        next, verdict := VisitSegment(i, next, wnd, base, ws, s);
        ws := grown;
        change := change || verdict == Fast;
        lost := lost || verdict == Timeout;
      }
      PassEnd(s, rxRto, b, ctl, died, Pass(sndBuf, ws, change, lost, dead));
    }

    /** The end of ikcp_flush: the window after a fast resend or a timeout. */
    method AdjustWindow(change: bool, lost: bool, window: nat)
      modifies this`cwnd, this`ssthresh, this`incr
      ensures Cong() == AfterFlush(cfg, old(Cong()), change, lost, Wrap32(sndNxt - sndUna), window)
    {
      if change {
        var inflight := Wrap32(sndNxt - sndUna);
        ssthresh := inflight / 2;
        if ssthresh < THRESH_MIN {
          ssthresh := THRESH_MIN;
        }
        cwnd := Wrap32(ssthresh + Resent(cfg));
        incr := Wrap32(cwnd * cfg.mss);
      }
      if lost {
        ssthresh := Wrap32(Max(window / 2, THRESH_MIN));
        cwnd, incr := 1, Wrap32(cfg.mss);
      }
      if cwnd < 1 {
        cwnd, incr := 1, Wrap32(cfg.mss);
      }
    }

    /** The first half of ikcp_flush: acks and probes. */
    method EmitControl(wnd: u16, ghost s: Pcb) returns (buf: seq<byte>)
      requires AcksCoherent() && Scratch(s, wnd) && s.rcv.acks == Acks() && s.probe == ProbeState() && s.cong == Cong()
      modifies this`output, this`ackcount, this`askSend, this`askTell, this`tsProbe, this`probeWait
      ensures AcksCoherent() && Acks() == []
      ensures ProbeState() == ProbeTimer(Wrapping, s.probe, s.cong.rmtWnd, s.clock.current).(ask := false, tell := false)
      ensures Emitted(old(output), AckWires(s) + ProbeWires(s, ProbeTimer(Wrapping, s.probe, s.cong.rmtWnd, s.clock.current)), buf)
    {
      hide Emitted, AckWires, ProbeWires, ProbeTimer;
      var sn, ts;
      ghost var base := output;
      buf, sn, ts := EmitAcks(wnd, s);
      RunProbeTimer();
      buf := EmitProbes(buf, wnd, sn, ts, base, s, AckWires(s));
    }

    /** New segments, transmissions, the rest of the buffer. */
    method EmitNew(buf: seq<byte>, wnd: u16, window: nat, ghost base: seq<seq<byte>>, ghost s: Pcb, ghost ctl: seq<Wire>)
      returns (change: bool, lost: bool)
      requires SndCoherent() && Scratch(s, wnd) && Emitted(base, ctl, buf)
      modifies this`output, this`sndQueue, this`sndBuf, this`nsndQue, this`nsndBuf, this`sndNxt, this`dead
      ensures SndCoherent()
      ensures var snd := Admit(Wrapping, old(Snd()), window, current, rxRto);
              && Snd() == snd.(buf := TouchAll(Wrapping, cfg, current, rxRto, snd.buf))
              && change == HasVerdict(Wrapping, cfg, current, snd.buf, Fast)
              && lost == HasVerdict(Wrapping, cfg, current, snd.buf, Timeout)
              && dead == (old(dead) || LinkDies(Wrapping, cfg, current, snd.buf))
              && output == base + EncodeEach(Pack(cfg.mtu, ctl + PushWires(Wrapping, s, snd.buf)))
    {
      AdmitSegments(window);
      TouchedU32(cfg, current, rxRto, sndBuf);
      ghost var ws := ctl + PushWires(Wrapping, s, sndBuf);
      var next;
      next, change, lost := EmitSegments(buf, wnd, base, s, ctl);
      EmitRest(next, base, ws);
    }

    /** The second half of ikcp_flush. */
    method EmitData(buf: seq<byte>, wnd: u16, ghost base: seq<seq<byte>>, ghost s: Pcb, ghost ctl: seq<Wire>)
      requires SndCoherent() && Scratch(s, wnd) && Emitted(base, ctl, buf)
      requires s.snd == Snd() && s.cong == Cong() && s.rtt.rto == rxRto
      modifies this`output, this`sndQueue, this`sndBuf, this`nsndQue, this`nsndBuf, this`sndNxt
      modifies this`cwnd, this`ssthresh, this`incr, this`dead
      ensures SndCoherent()
      ensures var snd := Admitted(Wrapping, s);
              && Snd() == snd.(buf := TouchAll(Wrapping, cfg, current, rxRto, snd.buf))
              && Cong() == FlushCong(Wrapping, s, snd)
              && dead == (old(dead) || LinkDies(Wrapping, cfg, current, snd.buf))
              && output == base + EncodeEach(Pack(cfg.mtu, ctl + PushWires(Wrapping, s, snd.buf)))
    {
      hide Emitted, EncodeEach, Pack, PushWires, Admit, TouchAll, LinkDies, HasVerdict;
      var window := Min(cfg.sndWnd, rmtWnd);
      if !cfg.nocwnd {
        window := Min(cwnd, window);
      }
      var change, lost := EmitNew(buf, wnd, window, base, s, ctl);
      AdjustWindow(change, lost, window);
    }

    /** What is left in the buffer is put out. */
    method EmitRest(buf: seq<byte>, ghost base: seq<seq<byte>>, ghost ws: seq<Wire>)
      requires Emitted(base, ws, buf)
      modifies this`output
      ensures output == base + EncodeEach(Pack(cfg.mtu, ws))
    {
      EmitEncodes(PutAll(cfg.mtu, ws));
      if |buf| > 0 {
        output := output + [buf];
      }
    }

    /** ikcp_flush, component by component. */
    method FlushParts(ghost s: Pcb)
      requires Coherent() && s == State()
      modifies this`output, this`ackcount, this`askSend, this`askTell, this`tsProbe, this`probeWait
      modifies this`sndQueue, this`sndBuf, this`nsndQue, this`nsndBuf, this`sndNxt
      modifies this`cwnd, this`ssthresh, this`incr, this`dead
      ensures SndCoherent() && AcksCoherent() && Acks() == []
      ensures ProbeState() == ProbeTimer(Wrapping, s.probe, s.cong.rmtWnd, s.clock.current).(ask := false, tell := false)
      ensures var snd := Admitted(Wrapping, s);
              && Snd() == snd.(buf := TouchAll(Wrapping, cfg, current, rxRto, snd.buf))
              && Cong() == FlushCong(Wrapping, s, snd)
              && dead == (s.dead || LinkDies(Wrapping, cfg, current, snd.buf))
              && output == old(output) + EncodeEach(Pack(cfg.mtu, FlushWires(Wrapping, s, snd)))
    {
      hide Emitted, EncodeEach, Pack, AckWires, ProbeWires, ProbeTimer, Admitted, PushWires, FlushCong, TouchAll, LinkDies,
           SndCoherent, RcvCoherent, Acks, PairUp, Control, Judge, Wrap16, Wrap32, ValidConfig;
      ghost var ctl := AckWires(s) + ProbeWires(s, ProbeTimer(Wrapping, s.probe, s.cong.rmtWnd, s.clock.current));
      ghost var base := output;
      var wnd := WndUnused();
      var buf := EmitControl(wnd, s);
      EmitData(buf, wnd, base, s, ctl);
    }

    /** The same, in terms of the whole state. */
    method FlushTurn()
      requires Coherent()
      modifies this`output, this`ackcount, this`askSend, this`askTell, this`tsProbe, this`probeWait
      modifies this`sndQueue, this`sndBuf, this`nsndQue, this`nsndBuf, this`sndNxt
      modifies this`cwnd, this`ssthresh, this`incr, this`dead
      ensures Coherent() && State() == FlushState(Wrapping, old(State()), Admitted(Wrapping, old(State())))
      ensures output == old(output) + EncodeEach(Pack(cfg.mtu, FlushWires(Wrapping, old(State()), Admitted(Wrapping, old(State())))))
    {
      hide EncodeEach, Pack, Admitted, FlushWires, FlushCong, TouchAll, LinkDies, ProbeTimer, PairUp, U32Segs, U32RcvSegs, Wrap32, ValidConfig;
      FlushParts(State());
    }

    /** ikcp_flush; only the second copy waits for the first ikcp_update. */
    method FlushMaybe()
      requires Coherent()
      modifies this`output, this`ackcount, this`askSend, this`askTell, this`tsProbe, this`probeWait
      modifies this`sndQueue, this`sndBuf, this`nsndQue, this`nsndBuf, this`sndNxt
      modifies this`cwnd, this`ssthresh, this`incr, this`dead
      ensures Coherent() && State() == KcpSpec.Flush(Wrapping, old(State())).s
      ensures output == old(output) + EncodeEach(Pack(cfg.mtu, KcpSpec.Flush(Wrapping, old(State())).wires))
    {
      if cfg.copy.Extended? && !updated {
        return;
      }
      FlushTurn();
    }

    /** ikcp_flush, between two calls. */
    method Flush()
      requires Valid()
      modifies this`output, this`ackcount, this`askSend, this`askTell, this`tsProbe, this`probeWait
      modifies this`sndQueue, this`sndBuf, this`nsndQue, this`nsndBuf, this`sndNxt
      modifies this`cwnd, this`ssthresh, this`incr, this`dead
      ensures Valid() && State() == KcpSpec.Flush(Wrapping, old(State())).s
      ensures output == old(output) + EncodeEach(Pack(cfg.mtu, KcpSpec.Flush(Wrapping, old(State())).wires))
    {
      hide EncodeEach, Pack, KcpSpec.Flush, U32Ok, Fits, SndCoherent, RcvCoherent, PairUp;
      CallOk(State(), CallFlush);
      FlushMaybe();
    }

    /** The clock part of ikcp_update. */
    method TickClock(now: u32) returns (due: bool)
      modifies this`current, this`tsFlush, this`updated
      ensures (ClockState(), due) == Tick(Wrapping, old(ClockState()), cfg.interval, now)
    {
      current := now;
      if !updated {
        updated, tsFlush := true, current;
      }
      var slap := TimeDiff(current, tsFlush);
      if slap >= 10000 || slap < -10000 {
        tsFlush, slap := current, 0;
      }
      due := slap >= 0;
      if due {
        tsFlush := Wrap32(tsFlush + cfg.interval);
        if TimeDiff(current, tsFlush) >= 0 {
          tsFlush := Wrap32(current + cfg.interval);
        }
      }
    }

    /** The same, in terms of the whole state. */
    method TickTurn(now: u32) returns (due: bool)
      requires Coherent()
      modifies this`current, this`tsFlush, this`updated
      ensures Coherent() && State() == old(State()).(clock := Tick(Wrapping, old(ClockState()), cfg.interval, now).0)
      ensures due == Tick(Wrapping, old(ClockState()), cfg.interval, now).1
    {
      due := TickClock(now);
    }

    /** ikcp_update */
    method Update(now: u32)
      requires Valid()
      modifies this, acklist
      ensures Valid() && State() == KcpSpec.Update(Wrapping, old(State()), now).s
      ensures output == old(output) + EncodeEach(Pack(cfg.mtu, KcpSpec.Update(Wrapping, old(State()), now).wires))
    {
      hide EncodeEach, Pack, KcpSpec.Flush, Tick, U32Ok, Fits, SndCoherent, RcvCoherent, PairUp;
      CallOk(State(), CallUpdate(now));
      PackNothing(cfg.mtu);
      var due := TickTurn(now);
      if due {
        FlushMaybe();
      }
    }

    /** The loop of ikcp_check: 0 when a retransmission is due. */
    method NearestResend(now: u32) returns (tmPacket: int)
      ensures tmPacket == NextResend(Wrapping, sndBuf, now, 0x7fff_ffff)
    {
      tmPacket := 0x7fff_ffff;
      var i := 0;
      assert sndBuf[0..] == sndBuf;
      while i < |sndBuf|
        invariant i <= |sndBuf|
        invariant NextResend(Wrapping, sndBuf, now, 0x7fff_ffff) == NextResend(Wrapping, sndBuf[i..], now, tmPacket)
      {
        var diff := TimeDiff(sndBuf[i].resendts, now);
        assert sndBuf[i..][1..] == sndBuf[i + 1..];
        if diff <= 0 {
          return 0;
        }
        if diff < tmPacket {
          tmPacket := diff;
        }
        i := i + 1;
      }
    }

    /** ikcp_check */
    method Check(now: u32) returns (at: u32)
      requires cfg.interval < HALF
      ensures at == KcpSpec.Check(Wrapping, ClockState(), cfg.interval, sndBuf, now)
    {
      var late := TimeDiff(now, tsFlush);
      if !updated || late >= 10000 || late < -10000 || late >= 0 {
        return now;
      }
      var tmFlush := TimeDiff(tsFlush, now);
      var tmPacket := NearestResend(now);
      if tmPacket == 0 {
        return now;
      }
      var minimal := if tmPacket < tmFlush then tmPacket else tmFlush;
      if minimal >= cfg.interval {
        minimal := cfg.interval;
      }
      at := Wrap32(now + minimal);
    }
  }

  /** Every call keeps what holds between two calls. */
  lemma CallOk(s: Pcb, call: Call)
    requires U32Ok(s) && Fits(s) && s.cfg.mss > 0
    ensures U32Ok(AfterCall(s, call)) && Fits(AfterCall(s, call))
  {
    var p :| EndOk(p) && s == Refinement.WrapPcb(p);
    AnyCall(p, call);
    CallTimesFit(s, call);
    CallFits(s, call);
  }

  lemma InputWiresCons(c: InCtx, w: Wire, ws: seq<Wire>)
    ensures InputWires(Wrapping, c, [w] + ws) == InputWires(Wrapping, InputWire(Wrapping, c, w), ws)
  {
    assert ([w] + ws)[1..] == ws;
  }

  lemma HeadStep(queue: seq<Frag>, i: nat)
    requires i < |queue|
    ensures queue[i..][1..] == queue[i + 1..]
    ensures HeadBytes(queue[i..]) == queue[i].data + (if queue[i].frg == 0 then [] else HeadBytes(queue[i + 1..]))
    ensures HeadCount(queue[i..]) == 1 + (if queue[i].frg == 0 then 0 else HeadCount(queue[i + 1..]))
  {
    assert queue[i..][1..] == queue[i + 1..];
  }

  /** The ack array holds sn and ts of each ack next to each other. */
  function PairUp(list: seq<u32>, n: nat): (acks: seq<Ack>)
    requires |list| == 2 * n
    ensures |acks| == n
    decreases n
  {
    if n == 0 then [] else PairUp(list[..2 * n - 2], n - 1) + [Ack(list[2 * n - 2], list[2 * n - 1])]
  }

  lemma PairUpAppend(list: seq<u32>, n: nat, sn: u32, ts: u32)
    requires |list| == 2 * n
    ensures PairUp(list + [sn, ts], n + 1) == PairUp(list, n) + [Ack(sn, ts)]
  {
    assert (list + [sn, ts])[..2 * n] == list;
  }

  lemma {:induction false} PairUpAt(list: seq<u32>, n: nat, i: nat)
    requires |list| == 2 * n && i < n
    ensures PairUp(list, n)[i] == Ack(list[2 * i], list[2 * i + 1])
  {
    if i < n - 1 {
      PairUpAt(list[..2 * n - 2], n - 1, i);
    } else if n > 1 {
      PairUpAt(list[..2 * n - 2], n - 1, 0);
    }
  }

  function EncodeEach(ds: seq<Datagram>): (r: seq<seq<byte>>)
    ensures |r| == |ds|
  {
    seq(|ds|, i requires 0 <= i < |ds| => EncodeAll(ds[i]))
  }

  /** What encoding one more segment does to the output and the buffer. */
  lemma PutEncodes(mtu: nat, ws: seq<Wire>, w: Wire)
    ensures var p, q := PutAll(mtu, ws), PutAll(mtu, ws + [w]);
            var buf := EncodeAll(p.cur);
            && (|buf| + OVERHEAD + |w.data| <= mtu ==> EncodeEach(q.out) == EncodeEach(p.out) && EncodeAll(q.cur) == buf + Encode(w))
            && (|buf| + OVERHEAD + |w.data| > mtu ==>
                  && EncodeAll(q.cur) == Encode(w)
                  && EncodeEach(q.out) == EncodeEach(p.out) + (if |buf| > 0 then [buf] else []))
  {
    var p := PutAll(mtu, ws);
    PutAllAppend(mtu, ws, w);
    EncodeSize(p.cur);
    EncodeAppend(p.cur, w);
    EncodeAppend([], w);
    assert [] + [w] == [w];
    EncodeEachAppend(p.out, p.cur);
    if p.cur != [] {
      SizePositive(p.cur);
    }
  }

  /** Putting out what is left in the buffer completes the packing. */
  lemma EmitEncodes(p: Packer)
    ensures EncodeEach(Emit(p)) == EncodeEach(p.out) + (if |EncodeAll(p.cur)| > 0 then [EncodeAll(p.cur)] else [])
  {
    EncodeSize(p.cur);
    EncodeEachAppend(p.out, p.cur);
    if p.cur != [] {
      SizePositive(p.cur);
    }
  }

  lemma PackNothing(mtu: nat)
    ensures EncodeEach(Pack(mtu, [])) == []
  {
  }

  lemma SizePositive(d: Datagram)
    requires d != []
    ensures Size(d) > 0
  {
  }

  lemma EncodeEachAppend(ds: seq<Datagram>, d: Datagram)
    ensures EncodeEach(ds + [d]) == EncodeEach(ds) + [EncodeAll(d)]
  {
  }

  lemma TouchedU32(cfg: Config, current: int, rxRto: u32, b: seq<SndSeg>)
    requires U32Segs(b)
    ensures U32Segs(TouchAll(Wrapping, cfg, current, rxRto, b))
  {
    var c := TouchAll(Wrapping, cfg, current, rxRto, b);
    assert forall i :: 0 <= i < |c| ==> c[i].sn == b[i].sn && b[i] in b;
  }

  /** The sn and ts left in the scratch segment by the ack loop. */
  function LastAck(acks: seq<Ack>): Ack {
    if acks == [] then Ack(0, 0) else acks[|acks| - 1]
  }

  lemma AckWiresGrow(s: Pcb, list: seq<u32>, i: nat)
    requires i < |s.rcv.acks| && |list| == 2 * |s.rcv.acks| && s.rcv.acks == PairUp(list, |s.rcv.acks|)
    ensures AckWires(s)[..i + 1] == AckWires(s)[..i] + [Control(s, CMD_ACK, list[2 * i], list[2 * i + 1])]
    ensures LastAck(s.rcv.acks[..i + 1]) == Ack(list[2 * i], list[2 * i + 1])
  {
    PairUpAt(list, |s.rcv.acks|, i);
    assert AckWires(s)[i] == Control(s, CMD_ACK, list[2 * i], list[2 * i + 1]);
  }

  lemma ProbeWiresSplit(s: Pcb, p: Probe, ws: seq<Wire>)
    ensures forall cmd: byte :: ProbeWire(s, cmd) == Control(s, cmd, LastAck(s.rcv.acks).sn, LastAck(s.rcv.acks).ts)
    ensures ws + ProbeWires(s, p) == (ws + (if p.ask then [ProbeWire(s, CMD_WASK)] else []))
                                         + (if p.tell then [ProbeWire(s, CMD_WINS)] else [])
  {
  }

  /** What one segment adds to the output. */
  function Transmission(s: Pcb, g: SndSeg): seq<Wire> {
    if Judge(Wrapping, s.cfg, s.clock.current, g).Keep? then [] else [PushWire(s, g)]
  }

  predicate Kills(cfg: Config, current: int, g: SndSeg) {
    !Judge(Wrapping, cfg, current, g).Keep? && Wrap32(g.xmit + 1) >= cfg.deadLink
  }

  /** The variables of the transmission loop. */
  datatype Pass = Pass(buf: seq<SndSeg>, ws: seq<Wire>, change: bool, lost: bool, dead: bool)

  /** The first i segments of b have been visited. */
  ghost predicate Passed(s: Pcb, rxRto: u32, b: seq<SndSeg>, i: nat, ctl: seq<Wire>, died: bool, p: Pass) {
    && i <= |b|
    && p.buf == TouchAll(Wrapping, s.cfg, s.clock.current, rxRto, b[..i]) + b[i..]
    && p.ws == ctl + PushWires(Wrapping, s, b[..i])
    && p.change == HasVerdict(Wrapping, s.cfg, s.clock.current, b[..i], Fast)
    && p.lost == HasVerdict(Wrapping, s.cfg, s.clock.current, b[..i], Timeout)
    && p.dead == (died || LinkDies(Wrapping, s.cfg, s.clock.current, b[..i]))
  }

  lemma PassStart(s: Pcb, rxRto: u32, b: seq<SndSeg>, ctl: seq<Wire>, died: bool)
    ensures Passed(s, rxRto, b, 0, ctl, died, Pass(b, ctl, false, false, died))
  {
    assert b[..0] == [] && b[0..] == b && ctl + [] == ctl;
  }

  lemma PassStep(s: Pcb, rxRto: u32, b: seq<SndSeg>, i: nat, ctl: seq<Wire>, died: bool, p: Pass)
    requires i < |b| && Passed(s, rxRto, b, i, ctl, died, p)
    ensures |p.buf| == |b| && p.buf[i] == b[i]
    ensures var verdict := Judge(Wrapping, s.cfg, s.clock.current, b[i]);
            Passed(s, rxRto, b, i + 1, ctl, died,
                   Pass(p.buf[i := Touch(Wrapping, s.cfg, s.clock.current, rxRto, b[i])], p.ws + Transmission(s, b[i]),
                        p.change || verdict == Fast, p.lost || verdict == Timeout, p.dead || Kills(s.cfg, s.clock.current, b[i])))
  {
    var front, all := b[..i], b[..i + 1];
    assert all[..i] == front && all[i] == b[i];
    VerdictsGrow(s.cfg, s.clock.current, front, all);
    TouchGrows(s.cfg, s.clock.current, rxRto, b, i);
    PushWiresGrow(s, front, all, ctl);
  }

  lemma TouchGrows(cfg: Config, current: int, rxRto: u32, b: seq<SndSeg>, i: nat)
    requires i < |b|
    ensures (TouchAll(Wrapping, cfg, current, rxRto, b[..i]) + b[i..])[i := Touch(Wrapping, cfg, current, rxRto, b[i])]
         == TouchAll(Wrapping, cfg, current, rxRto, b[..i + 1]) + b[i + 1..]
  {
  }

  lemma PushWiresGrow(s: Pcb, front: seq<SndSeg>, all: seq<SndSeg>, ctl: seq<Wire>)
    requires |all| == |front| + 1 && all[..|front|] == front
    ensures ctl + PushWires(Wrapping, s, all) == (ctl + PushWires(Wrapping, s, front)) + Transmission(s, all[|front|])
  {
  }

  lemma PassEnd(s: Pcb, rxRto: u32, b: seq<SndSeg>, ctl: seq<Wire>, died: bool, p: Pass)
    requires Passed(s, rxRto, b, |b|, ctl, died, p)
    ensures p == Pass(TouchAll(Wrapping, s.cfg, s.clock.current, rxRto, b), ctl + PushWires(Wrapping, s, b),
                      HasVerdict(Wrapping, s.cfg, s.clock.current, b, Fast), HasVerdict(Wrapping, s.cfg, s.clock.current, b, Timeout),
                      died || LinkDies(Wrapping, s.cfg, s.clock.current, b))
  {
    assert b[..|b|] == b && b[|b|..] == [];
  }

  lemma VerdictsGrow(cfg: Config, current: int, front: seq<SndSeg>, all: seq<SndSeg>)
    requires |all| == |front| + 1 && all[..|front|] == front
    ensures var last := all[|front|];
            && (forall v :: HasVerdict(Wrapping, cfg, current, all, v)
                       <==> HasVerdict(Wrapping, cfg, current, front, v) || Judge(Wrapping, cfg, current, last) == v)
            && (LinkDies(Wrapping, cfg, current, all)
                <==> LinkDies(Wrapping, cfg, current, front) || (!Judge(Wrapping, cfg, current, last).Keep? && Wrap32(last.xmit + 1) >= cfg.deadLink))
  {
    var n := |front|;
    assert forall j :: 0 <= j < n ==> front[j] == all[j];
    forall v
      ensures HasVerdict(Wrapping, cfg, current, all, v)
         <==> HasVerdict(Wrapping, cfg, current, front, v) || Judge(Wrapping, cfg, current, all[n]) == v
    {
      if HasVerdict(Wrapping, cfg, current, front, v) {
        var j :| 0 <= j < n && Judge(Wrapping, cfg, current, front[j]) == v;
        assert Judge(Wrapping, cfg, current, all[j]) == v;
      }
    }
    if LinkDies(Wrapping, cfg, current, front) {
      var j :| 0 <= j < n && !Judge(Wrapping, cfg, current, front[j]).Keep? && Wrap32(front[j].xmit + 1) >= cfg.deadLink;
      assert !Judge(Wrapping, cfg, current, all[j]).Keep?;
    }
  }

  lemma RemoveAckedHit(buf: seq<SndSeg>, i: nat, sn: u32)
    requires i < |buf| && sn == buf[i].sn
    ensures buf[..i] + RemoveAcked(Wrapping, buf[i..], sn) == buf[..i] + buf[i + 1..]
  {
  }

  lemma RemoveAckedStop(buf: seq<SndSeg>, i: nat, sn: u32)
    requires i < |buf| && sn != buf[i].sn && TimeDiff(sn, buf[i].sn) < 0
    ensures buf[..i] + RemoveAcked(Wrapping, buf[i..], sn) == buf
  {
  }

  lemma RemoveAckedGo(buf: seq<SndSeg>, i: nat, sn: u32)
    requires i < |buf| && sn != buf[i].sn && TimeDiff(sn, buf[i].sn) >= 0
    ensures buf[..i] + RemoveAcked(Wrapping, buf[i..], sn) == buf[..i + 1] + RemoveAcked(Wrapping, buf[i + 1..], sn)
  {
    assert buf[i..][1..] == buf[i + 1..];
  }

  lemma CountSkippedStop(buf: seq<SndSeg>, i: nat, sn: u32)
    requires i < |buf| && TimeDiff(sn, buf[i].sn) < 0
    ensures buf[..i] + CountSkipped(Wrapping, buf[i..], sn) == buf
  {
  }

  lemma CountSkippedGo(buf: seq<SndSeg>, i: nat, sn: u32, next: seq<SndSeg>)
    requires i < |buf| && TimeDiff(sn, buf[i].sn) >= 0
    requires next == if sn == buf[i].sn then buf else buf[i := buf[i].(fastack := Wrap32(buf[i].fastack + 1))]
    ensures buf[..i] + CountSkipped(Wrapping, buf[i..], sn) == next[..i + 1] + CountSkipped(Wrapping, next[i + 1..], sn)
  {
    assert buf[i..][1..] == buf[i + 1..] == next[i + 1..];
    assert next[..i + 1] == buf[..i] + [next[i]];
  }

  lemma CountDown(n: nat)
    requires n > 0
    ensures Wrap32(Wrap32(n) - 1) == Wrap32(n - 1)
  {
    WrapShift(n - 1, Wrap32(n) - 1, n / 0x1_0000_0000);
  }

  lemma CountUp(n: nat)
    ensures Wrap32(Wrap32(n) + 1) == Wrap32(n + 1)
  {
    WrapShift(n + 1, Wrap32(n) + 1, n / 0x1_0000_0000);
  }
}
