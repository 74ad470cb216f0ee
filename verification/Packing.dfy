/** How ikcp_flush cuts the segments it encodes into datagrams: nothing is lost,
    reordered or added, and no datagram is empty or longer than the mtu. */
module Packing {
  import opened Basics
  import opened KcpTypes

  function Need(w: Wire): nat {
    OVERHEAD + |w.data|
  }

  function Size(d: Datagram): nat {
    if d == [] then 0 else Size(d[..|d| - 1]) + Need(d[|d| - 1])
  }

  /** out: the datagrams handed to the output callback; cur: what is in the buffer. */
  datatype Packer = Packer(out: seq<Datagram>, cur: Datagram)

  /** ikcp_output does nothing when the buffer is empty. */
  function Emit(p: Packer): seq<Datagram> {
    if p.cur == [] then p.out else p.out + [p.cur]
  }

  function Put(mtu: nat, p: Packer, w: Wire): Packer {
    if Size(p.cur) + Need(w) > mtu then Packer(Emit(p), [w]) else p.(cur := p.cur + [w])
  }

  function PutAll(mtu: nat, ws: seq<Wire>): Packer {
    if ws == [] then Packer([], []) else Put(mtu, PutAll(mtu, ws[..|ws| - 1]), ws[|ws| - 1])
  }

  function Pack(mtu: nat, ws: seq<Wire>): seq<Datagram> {
    Emit(PutAll(mtu, ws))
  }

  lemma PutAllAppend(mtu: nat, ws: seq<Wire>, w: Wire)
    ensures PutAll(mtu, ws + [w]) == Put(mtu, PutAll(mtu, ws), w)
  {
    assert (ws + [w])[..|ws|] == ws;
  }

  /** The datagrams so far, then the buffer. */
  function Content(p: Packer): seq<Wire> {
    Joined(p.out) + p.cur
  }

  lemma EmitContent(p: Packer)
    ensures Joined(Emit(p)) == Content(p)
  {
    JoinedAppend(p.out, p.cur);
  }

  lemma PutContent(mtu: nat, p: Packer, w: Wire)
    ensures Content(Put(mtu, p, w)) == Content(p) + [w]
  {
    EmitContent(p);
  }

  /** Concatenating the datagrams of a flush gives back the encoded segments. */
  lemma {:induction false} PackLossless(mtu: nat, ws: seq<Wire>)
    ensures Joined(Pack(mtu, ws)) == ws && Content(PutAll(mtu, ws)) == ws
  {
    if ws != [] {
      var n := |ws| - 1;
      PackLossless(mtu, ws[..n]);
      PutContent(mtu, PutAll(mtu, ws[..n]), ws[n]);
      assert ws == ws[..n] + [ws[n]];
    }
    EmitContent(PutAll(mtu, ws));
  }

  /** Every datagram is non-empty and fits the mtu when every segment does. */
  lemma {:induction false} PackBounded(mtu: nat, ws: seq<Wire>)
    requires forall w :: w in ws ==> Need(w) <= mtu
    ensures var p := PutAll(mtu, ws);
            Size(p.cur) <= mtu && forall d :: d in p.out ==> d != [] && 0 < Size(d) <= mtu
    ensures forall d :: d in Pack(mtu, ws) ==> d != [] && 0 < Size(d) <= mtu
  {
    if ws != [] {
      var n := |ws| - 1;
      PackBounded(mtu, ws[..n]);
      var q := PutAll(mtu, ws[..n]);
      SizeAppend(q.cur, ws[n]);
      SizeAppend([], ws[n]);
      assert [] + [ws[n]] == [ws[n]];
    }
  }

  /** The first segment of the next datagram does not fit into this one. */
  ghost predicate Filled(mtu: nat, ds: seq<Datagram>) {
    forall i :: 0 < i < |ds| ==> ds[i] != [] && Size(ds[i - 1]) + Need(ds[i][0]) > mtu
  }

  lemma PutFills(mtu: nat, p: Packer, w: Wire)
    requires p.cur != [] && Filled(mtu, Emit(p))
    ensures Put(mtu, p, w).cur != [] && Filled(mtu, Emit(Put(mtu, p, w)))
  {
    hide Size;
    var q, ds := Emit(Put(mtu, p, w)), Emit(p);
    if Size(p.cur) + Need(w) > mtu {
      assert q == ds + [[w]];
    } else {
      assert ds == p.out + [p.cur] && q == p.out + [p.cur + [w]];
      forall i | 0 < i < |q|
        ensures q[i] != [] && Size(q[i - 1]) + Need(q[i][0]) > mtu
      {
        assert ds[i] != [] && Size(ds[i - 1]) + Need(ds[i][0]) > mtu;
        assert q[i - 1] == ds[i - 1] && q[i][0] == ds[i][0];
      }
    }
  }

  /** A datagram is closed only when the next segment would make it too long. */
  lemma {:induction false} PackFills(mtu: nat, ws: seq<Wire>)
    requires forall w :: w in ws ==> Need(w) <= mtu
    ensures Filled(mtu, Pack(mtu, ws)) && (ws != [] ==> PutAll(mtu, ws).cur != [])
  {
    if ws != [] {
      var n := |ws| - 1;
      PackFills(mtu, ws[..n]);
      if n == 0 {
        assert PutAll(mtu, ws[..0]) == Packer([], []) && Size([]) == 0;
        assert Put(mtu, Packer([], []), ws[0]) == Packer([], [] + [ws[0]]);
      } else {
        PutFills(mtu, PutAll(mtu, ws[..n]), ws[n]);
      }
    }
  }

  lemma SizeAppend(d: Datagram, w: Wire)
    ensures Size(d + [w]) == Size(d) + Need(w)
  {
    assert (d + [w])[..|d|] == d;
  }

  /** A segment is in some datagram exactly when it was encoded. */
  lemma {:induction false} JoinedMembers(ds: seq<Datagram>, w: Wire)
    ensures w in Joined(ds) <==> exists d :: d in ds && w in d
  {
    if ds != [] {
      var n := |ds| - 1;
      JoinedMembers(ds[..n], w);
      assert ds == ds[..n] + [ds[n]];
    }
  }
}
