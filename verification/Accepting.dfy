/** Which messages ikcp_send accepts, and what it makes of them, in lengths and bytes alone. */
module Accepting {
  import opened Basics
  import opened Serial
  import opened KcpTypes
  import opened KcpSpec
  import opened Messages
  import opened Streams

  /** How many bytes a stream-mode send puts into the last queued segment. */
  function FillsUp(stream: bool, mss: nat, queue: seq<Frag>, len: nat): (n: nat)
    ensures n <= len && (n > 0 ==> stream)
  {
    if !stream || queue == [] || |queue[|queue| - 1].data| >= mss then 0
    else if len < mss - |queue[|queue| - 1].data| then len
    else mss - |queue[|queue| - 1].data|
  }

  /** k pieces of at most mss bytes are as many as len bytes need, and at least one. */
  predicate Pieces(mss: nat, len: nat, k: int) {
    k >= 1 && len <= k * mss && (k > 1 ==> (k - 1) * mss < len)
  }

  lemma CountIs(mss: nat, len: nat)
    requires mss > 0
    ensures Pieces(mss, len, FragCount(mss, len))
  {
    CeilDiv(len, mss);
    var k := FragCount(mss, len);
    if len > mss {
      var x := len + mss - 1;
      assert x == k * mss + x % mss;
      assert (k - 1) * mss == k * mss - mss;
      if k < 1 {
        MulMono(k, 0, mss);
      }
    }
  }

  lemma MoreThan(mss: nat, len: nat, k: nat, limit: nat)
    requires mss > 0 && Pieces(mss, len, k)
    ensures k > limit <==> len > limit * mss || (limit == 0)
  {
    if k > limit {
      if k > 1 {
        MulMono(limit, k - 1, mss);
      }
    } else {
      MulMono(k, limit, mss);
    }
  }

  /** A message is refused exactly when more bytes than 255 segments hold, in the second copy
      127, are left over once the last queued segment has been filled up. */
  predicate Refuses(cfg: Config, rest: nat) {
    rest > (if cfg.copy.Basic? then 255 else 127) * cfg.mss
  }

  lemma RefusesExactly(cfg: Config, rest: nat)
    requires cfg.mss > 0
    ensures TooManyFrags(cfg.copy, FragCount(cfg.mss, rest)) <==> Refuses(cfg, rest)
  {
    CountIs(cfg.mss, rest);
    MoreThan(cfg.mss, rest, FragCount(cfg.mss, rest), if cfg.copy.Basic? then 255 else 127);
  }

  /** Fragments cut from one message: all but the last are full, and in message mode they
      are numbered down to 0. */
  ghost predicate CutUp(mss: nat, stream: bool, frags: seq<Frag>) {
    forall i :: 0 <= i < |frags| ==>
      && frags[i].frg == (if stream then 0 else |frags| - 1 - i)
      && (if i < |frags| - 1 then |frags[i].data| == mss else |frags[i].data| <= mss)
  }

  lemma {:induction false} CutIsFull(mss: nat, data: seq<byte>, count: nat, stream: bool)
    requires 0 < count <= 256 && Pieces(mss, |data|, count)
    ensures CutUp(mss, stream, Cut(mss, data, count, stream))
  {
    var f := Cut(mss, data, count, stream);
    if count > 1 {
      MulMono(1, count - 1, mss);
      assert (count - 1) * mss == (count - 2) * mss + mss && count * mss == (count - 1) * mss + mss;
      var rest := Cut(mss, data[mss..], count - 1, stream);
      CutIsFull(mss, data[mss..], count - 1, stream);
      assert f == [Frag(if stream then 0 else count - 1, data[..mss])] + rest;
      assert forall i :: 0 < i < |f| ==> f[i] == rest[i - 1];
    } else {
      assert f == [Frag(0, data[..Min(|data|, mss)])] + Cut(mss, data[Min(|data|, mss)..], 0, stream);
    }
  }

  /** The queued fragments are still there; only the last one may have got more bytes. */
  ghost predicate Extends(before: seq<Frag>, after: seq<Frag>, bytes: seq<byte>) {
    && |before| <= |after|
    && (bytes == [] ==> forall i :: 0 <= i < |before| ==> after[i].data == before[i].data)
    && (bytes != [] ==>
          && before != [] && after[..|before| - 1] == before[..|before| - 1]
          && after[|before| - 1].data == before[|before| - 1].data + bytes)
  }

  /** What the parts of one ikcp_send do, without the names it gives them. */
  lemma FillsTheLast(cfg: Config, queue: seq<Frag>, msg: seq<byte>)
    ensures var filled := FillsUp(cfg.stream, cfg.mss, queue, |msg|);
            && StreamExtend(cfg, queue, msg) == filled
            && Extends(queue, StreamAppend(cfg, queue, msg), msg[..filled])
  {
    var q := StreamAppend(cfg, queue, msg);
    assert msg[..0] == [];
    assert |msg| > 0 ==> |msg[..|msg|]| > 0;
  }

  lemma MoreFragments(queue: seq<Frag>, q: seq<Frag>, bytes: seq<byte>, f: seq<Frag>)
    requires Extends(queue, q, bytes) && |q| == |queue|
    ensures Extends(queue, q + f, bytes) && (q + f)[|queue|..] == f && |q + f| - |queue| == |f|
  {
  }

  /** ikcp_send, in lengths and bytes: the last queued segment is filled up in stream mode.
      With nothing left over then, nothing is added.  Otherwise a rest of more than 255
      segments of bytes, in the second copy of more than 127, is refused; any other is
      accepted, and adds as many fragments as it needs, at least one. */
  lemma AcceptsExactly(cfg: Config, queue: seq<Frag>, msg: seq<byte>)
    requires cfg.mss > 0
    ensures var r := Send(cfg, queue, msg);
            var filled := FillsUp(cfg.stream, cfg.mss, queue, |msg|);
            var rest := |msg| - filled;
            && Extends(queue, r.queue, msg[..filled])
            && (if cfg.stream && rest == 0 then
                  |r.queue| == |queue| && r.ret == (if cfg.copy.Basic? then 0 else |msg|)
                else if rest > (if cfg.copy.Basic? then 255 else 127) * cfg.mss then
                  |r.queue| == |queue| && r.ret == (if cfg.copy.Extended? && filled > 0 then filled else -2)
                else
                  && r.ret == (if cfg.copy.Basic? then 0 else |msg|)
                  && Pieces(cfg.mss, rest, |r.queue| - |queue|)
                  && CutUp(cfg.mss, cfg.stream, r.queue[|queue|..])
                  && Bytes(r.queue[|queue|..]) == msg[filled..]
                  && Bytes(r.queue) == Bytes(queue) + msg)
  {
    hide Bytes, FragCount, Cut, StreamAppend, StreamExtend, TooManyFrags, FillsUp, Pieces, CutUp, Extends;
    var filled := FillsUp(cfg.stream, cfg.mss, queue, |msg|);
    var rest := msg[filled..];
    var q := StreamAppend(cfg, queue, msg);
    FillsTheLast(cfg, queue, msg);
    SendTakes(cfg, queue, msg);
    RefusesExactly(cfg, |rest|);
    if !(cfg.stream && rest == []) && !Refuses(cfg, |rest|) {
      var count := FragCount(cfg.mss, |rest|);
      CutsRest(cfg, rest);
      MoreFragments(queue, q, msg[..filled], Cut(cfg.mss, rest, count, cfg.stream));
    }
    if Taken(cfg, queue, msg) == |msg| {
      assert msg[..|msg|] == msg;
    }
  }

  /** The fragments made of an accepted rest. */
  lemma CutsRest(cfg: Config, rest: seq<byte>)
    requires cfg.mss > 0 && !TooManyFrags(cfg.copy, FragCount(cfg.mss, |rest|))
    ensures var count := FragCount(cfg.mss, |rest|);
            var f := Cut(cfg.mss, rest, count, cfg.stream);
            Pieces(cfg.mss, |rest|, count) && CutUp(cfg.mss, cfg.stream, f) && Bytes(f) == rest
  {
    var count := FragCount(cfg.mss, |rest|);
    CountIs(cfg.mss, |rest|);
    CutIsFull(cfg.mss, rest, count, cfg.stream);
    CutBytes(cfg.mss, rest, count, cfg.stream);
  }
}
