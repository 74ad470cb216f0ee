/** The 24-byte little-endian header of a segment, and the parse loop of ikcp_input. */
module Codec {
  import opened Basics
  import opened Serial
  import opened KcpTypes
  import opened Packing

  function Low(x: u32): byte { x % 0x100 }
  function Second(x: u32): byte { x / 0x100 % 0x100 }
  function Third(x: u32): byte { x / 0x1_0000 % 0x100 }
  function High(x: u32): byte { x / 0x100_0000 }

  function Join16(b0: int, b1: int): int {
    b0 + 0x100 * b1
  }

  function Join32(b0: int, b1: int, b2: int, b3: int): int {
    b0 + 0x100 * b1 + 0x1_0000 * b2 + 0x100_0000 * b3
  }

  /** ikcp_decode32u at position i. */
  function U32At(b: seq<byte>, i: nat): u32
    requires i + 4 <= |b|
  {
    Join32(b[i], b[i + 1], b[i + 2], b[i + 3])
  }

  /** ikcp_decode16u at position i. */
  function U16At(b: seq<byte>, i: nat): u16
    requires i + 2 <= |b|
  {
    Join16(b[i], b[i + 1])
  }

  predicate OnWire(w: Wire) {
    0 <= w.sn < 0x1_0000_0000 && 0 <= w.una < 0x1_0000_0000 && 0 <= w.ts < 0x1_0000_0000
  }

  predicate KnownCmd(cmd: byte) {
    cmd == CMD_PUSH || cmd == CMD_ACK || cmd == CMD_WASK || cmd == CMD_WINS
  }

  /** What ikcp_flush can encode for a connection. */
  predicate Encodable(conv: u32, w: Wire) {
    OnWire(w) && w.conv == conv && KnownCmd(w.cmd) && |w.data| < 0x1_0000_0000
  }

  function HeaderBytes(w: Wire, ts: u32, sn: u32, una: u32, len: u32): (h: seq<byte>)
    ensures |h| == OVERHEAD
  {
    [Low(w.conv), Second(w.conv), Third(w.conv), High(w.conv),
     w.cmd, w.frg, w.wnd % 0x100, w.wnd / 0x100,
     Low(ts), Second(ts), Third(ts), High(ts),
     Low(sn), Second(sn), Third(sn), High(sn),
     Low(una), Second(una), Third(una), High(una),
     Low(len), Second(len), Third(len), High(len)]
  }

  /** ikcp_encode_seg */
  function Header(w: Wire): (h: seq<byte>)
    ensures |h| == OVERHEAD
  {
    HeaderBytes(w, Wrap32(w.ts), Wrap32(w.sn), Wrap32(w.una), Wrap32(|w.data|))
  }

  function Encode(w: Wire): (b: seq<byte>)
    ensures |b| == Need(w)
  {
    Header(w) + w.data
  }

  function EncodeAll(d: Datagram): seq<byte> {
    if d == [] then [] else EncodeAll(d[..|d| - 1]) + Encode(d[|d| - 1])
  }

  /** The segment whose header starts b, with len bytes of payload. */
  function Decode(b: seq<byte>, len: nat): Wire
    requires OVERHEAD + len <= |b|
  {
    Wire(U32At(b, 0), b[4], b[5], U16At(b, 6), U32At(b, 8), U32At(b, 12), U32At(b, 16), b[OVERHEAD..OVERHEAD + len])
  }

  datatype Parsed = Parsed(wires: seq<Wire>, status: int)

  /** The parse loop: the segments processed before it stops, and what it returns. */
  function Parse(conv: u32, b: seq<byte>): (r: Parsed)
    ensures forall w :: w in r.wires ==> Encodable(conv, w)
    decreases |b|
  {
    if |b| < OVERHEAD then Parsed([], 0)
    else if U32At(b, 0) != conv then Parsed([], -1)
    else
      var len := U32At(b, 20);
      if |b| - OVERHEAD < len then Parsed([], -2)
      else if !KnownCmd(b[4]) then Parsed([], -3)
      else
        var r := Parse(conv, b[OVERHEAD + len..]);
        Parsed([Decode(b, len)] + r.wires, r.status)
  }

  lemma BytesOfU32(x: u32)
    ensures Join32(Low(x), Second(x), Third(x), High(x)) == x
  {
    var q := x / 0x100;
    assert x / 0x1_0000 == q / 0x100;
    assert x / 0x100_0000 == q / 0x100 / 0x100;
  }

  predicate Holds(b: seq<byte>, i: nat, x: u32)
    requires i + 4 <= |b|
  {
    b[i] == Low(x) && b[i + 1] == Second(x) && b[i + 2] == Third(x) && b[i + 3] == High(x)
  }

  lemma Digits(b0: byte, b1: byte, b2: byte, b3: byte)
    ensures 0 <= Join32(b0, b1, b2, b3) < 0x1_0000_0000
    ensures var x := Join32(b0, b1, b2, b3);
            Low(x) == b0 && Second(x) == b1 && Third(x) == b2 && High(x) == b3
  {
    var x := Join32(b0, b1, b2, b3);
    var q: int := b1 + 0x100 * (b2 as int) + 0x1_0000 * (b3 as int);
    var r: int := b2 + 0x100 * (b3 as int);
    assert x / 0x100 == q && x % 0x100 == b0;
    assert q / 0x100 == r && q % 0x100 == b1;
    assert r / 0x100 == b3 && r % 0x100 == b2;
    assert x / 0x1_0000 == r && x / 0x100_0000 == b3;
  }

  lemma HoldsReads(b: seq<byte>, i: nat, x: u32)
    requires i + 4 <= |b|
    ensures Holds(b, i, x) <==> U32At(b, i) == x
  {
    BytesOfU32(x);
    Digits(b[i], b[i + 1], b[i + 2], b[i + 3]);
  }

  predicate Holds16(b: seq<byte>, i: nat, x: u16)
    requires i + 2 <= |b|
  {
    b[i] == x % 0x100 && b[i + 1] == x / 0x100
  }

  lemma Holds16Reads(b: seq<byte>, i: nat, x: u16)
    requires i + 2 <= |b|
    ensures Holds16(b, i, x) <==> U16At(b, i) == x
  {
  }

  /** The fields of the header, by position. */
  ghost predicate HeaderHolds(h: seq<byte>, w: Wire, ts: u32, sn: u32, una: u32, len: u32)
    requires |h| >= OVERHEAD
  {
    && Holds(h, 0, w.conv) && h[4] == w.cmd && h[5] == w.frg && Holds16(h, 6, w.wnd)
    && Holds(h, 8, ts) && Holds(h, 12, sn) && Holds(h, 16, una) && Holds(h, 20, len)
  }

  lemma HeaderIs(w: Wire, ts: u32, sn: u32, una: u32, len: u32, b: seq<byte>)
    requires |b| >= OVERHEAD
    ensures HeaderHolds(b, w, ts, sn, una, len) <==> HeaderBytes(w, ts, sn, una, len) <= b
  {
    var h := HeaderBytes(w, ts, sn, una, len);
    if HeaderHolds(b, w, ts, sn, una, len) {
      assert h == b[..OVERHEAD];
    }
    if h <= b {
      assert forall i :: 0 <= i < OVERHEAD ==> b[i] == h[i];
    }
  }

  lemma WrapSmall(w: Wire)
    requires OnWire(w) && |w.data| < 0x1_0000_0000
    ensures Header(w) == HeaderBytes(w, w.ts, w.sn, w.una, |w.data|)
  {
    assert Wrap32(w.ts) == w.ts && Wrap32(w.sn) == w.sn && Wrap32(w.una) == w.una && Wrap32(|w.data|) == |w.data|;
  }

  lemma HeaderReads(w: Wire, b: seq<byte>)
    requires OnWire(w) && |w.data| < 0x1_0000_0000 && HeaderBytes(w, w.ts, w.sn, w.una, |w.data|) <= b
    ensures b[4] == w.cmd && b[5] == w.frg && U16At(b, 6) == w.wnd
    ensures U32At(b, 0) == w.conv && U32At(b, 8) == w.ts && U32At(b, 12) == w.sn
    ensures U32At(b, 16) == w.una && U32At(b, 20) == |w.data|
  {
    HeaderIs(w, w.ts, w.sn, w.una, |w.data|, b);
    HoldsReads(b, 0, w.conv);
    Holds16Reads(b, 6, w.wnd);
    HoldsReads(b, 8, w.ts);
    HoldsReads(b, 12, w.sn);
    HoldsReads(b, 16, w.una);
    HoldsReads(b, 20, |w.data|);
  }

  lemma ValueOfFour(b: seq<byte>, i: nat)
    requires i + 4 <= |b|
    ensures Value(b[i..i + 4]) == U32At(b, i)
  {
    var v := b[i..i + 4];
    assert v[1..][1..] == v[2..] && v[2..][1..] == v[3..] && v[3..][1..] == [];
    assert Value(v) == v[0] + 0x100 * Value(v[1..]);
    assert Value(v[1..]) == v[1] + 0x100 * Value(v[2..]);
    assert Value(v[2..]) == v[2] + 0x100 * Value(v[3..]);
  }

  lemma ValueOfTwo(b: seq<byte>, i: nat)
    requires i + 2 <= |b|
    ensures Value(b[i..i + 2]) == U16At(b, i)
  {
    var v := b[i..i + 2];
    assert v[1..][1..] == [];
    assert Value(v) == v[0] + 0x100 * Value(v[1..]);
    assert Value(v[1..]) == v[1] + 0x100 * Value([]);
  }

  /** The bytes of an encoded segment: a header of 24 bytes, little-endian, then the data. */
  lemma EncodedLayout(w: Wire)
    requires OnWire(w) && |w.data| < 0x1_0000_0000
    ensures var b := Encode(w);
            && |b| == 24 + |w.data| && b[24..] == w.data
            && Value(b[0..4]) == w.conv && b[4] == w.cmd && b[5] == w.frg && Value(b[6..8]) == w.wnd
            && Value(b[8..12]) == w.ts && Value(b[12..16]) == w.sn && Value(b[16..20]) == w.una
            && Value(b[20..24]) == |w.data|
  {
    hide Value, U32At, U16At, HeaderBytes, Wrap32;
    var b := Encode(w);
    WrapSmall(w);
    HeaderReads(w, b);
    ValueOfFour(b, 0);
    ValueOfTwo(b, 6);
    ValueOfFour(b, 8);
    ValueOfFour(b, 12);
    ValueOfFour(b, 16);
    ValueOfFour(b, 20);
  }

  lemma ParseOne(conv: u32, w: Wire, rest: seq<byte>)
    requires Encodable(conv, w)
    ensures var r := Parse(conv, rest);
            Parse(conv, Encode(w) + rest) == Parsed([w] + r.wires, r.status)
  {
    var b := Encode(w) + rest;
    assert b == Header(w) + (w.data + rest);
    WrapSmall(w);
    HeaderReads(w, b);
    assert b[OVERHEAD..OVERHEAD + |w.data|] == w.data;
    assert b[OVERHEAD + |w.data|..] == rest;
  }

  lemma EncodeAppend(d: Datagram, w: Wire)
    ensures EncodeAll(d + [w]) == EncodeAll(d) + Encode(w)
  {
    assert (d + [w])[..|d|] == d;
  }

  lemma {:induction false} EncodeCons(w: Wire, d: Datagram)
    ensures EncodeAll([w] + d) == Encode(w) + EncodeAll(d)
  {
    if d == [] {
      EncodeAppend([], w);
      assert [] + [w] == [w] + [];
    } else {
      var n := |d| - 1;
      EncodeCons(w, d[..n]);
      assert [w] + d == ([w] + d[..n]) + [d[n]];
      EncodeAppend([w] + d[..n], d[n]);
      var x, y, z := Encode(w), EncodeAll(d[..n]), Encode(d[n]);
      assert (x + y) + z == x + (y + z);
    }
  }

  /** Decoding what was encoded gives the same segments and no error. */
  lemma {:induction false} ParseEncode(conv: u32, d: Datagram)
    requires forall w :: w in d ==> Encodable(conv, w)
    ensures Parse(conv, EncodeAll(d)) == Parsed(d, 0)
    decreases |d|
  {
    if d != [] {
      assert d == [d[0]] + d[1..];
      EncodeCons(d[0], d[1..]);
      ParseEncode(conv, d[1..]);
      ParseOne(conv, d[0], EncodeAll(d[1..]));
    }
  }

  /** The length of a datagram is the size the packing reckons with. */
  lemma {:induction false} EncodeSize(d: Datagram)
    ensures |EncodeAll(d)| == Size(d)
  {
    if d != [] {
      EncodeSize(d[..|d| - 1]);
    }
  }

  lemma HeaderOfDecode(b: seq<byte>, len: nat)
    requires OVERHEAD + len <= |b| && U32At(b, 20) == len
    ensures var w := Decode(b, len);
            HeaderHolds(b, w, w.ts, w.sn, w.una, len)
  {
    var w := Decode(b, len);
    HoldsReads(b, 0, w.conv);
    Holds16Reads(b, 6, w.wnd);
    HoldsReads(b, 8, w.ts);
    HoldsReads(b, 12, w.sn);
    HoldsReads(b, 16, w.una);
    HoldsReads(b, 20, len);
  }

  /** Re-encoding an accepted segment gives back the bytes it was read from. */
  lemma DecodeSound(b: seq<byte>)
    requires OVERHEAD <= |b| && U32At(b, 20) <= |b| - OVERHEAD
    ensures Encode(Decode(b, U32At(b, 20))) == b[..OVERHEAD + U32At(b, 20)]
  {
    var len := U32At(b, 20);
    var w := Decode(b, len);
    HeaderOfDecode(b, len);
    HeaderIs(w, w.ts, w.sn, w.una, len, b);
    WrapSmall(w);
    assert b[..OVERHEAD + len] == b[..OVERHEAD] + b[OVERHEAD..OVERHEAD + len];
  }

  /** The parse loop reads nothing that is not there: re-encoding what it accepted
      gives back the bytes it went over, and without an error fewer than a header
      of bytes are left. */
  lemma {:induction false} ParseSound(conv: u32, b: seq<byte>)
    ensures var r := Parse(conv, b);
            var e := EncodeAll(r.wires);
            e <= b && (r.status == 0 <==> |b| - |e| < OVERHEAD)
    decreases |b|
  {
    if Parse(conv, b).wires != [] {
      var n := OVERHEAD + U32At(b, 20);
      ParseSound(conv, b[n..]);
      DecodeSound(b);
      ParseNext(conv, b);
      var w, ws := Decode(b, U32At(b, 20)), Parse(conv, b[n..]).wires;
      EncodeCons(w, ws);
      PrefixGlue(b, n, Encode(w), EncodeAll(ws));
    }
  }

  lemma PrefixGlue(b: seq<byte>, n: nat, x: seq<byte>, y: seq<byte>)
    requires n <= |b| && x == b[..n] && y <= b[n..]
    ensures x + y <= b && |b| - |x + y| == |b[n..]| - |y|
  {
    assert b == b[..n] + b[n..];
  }

  /** One turn of the parse loop. */
  lemma ParseNext(conv: u32, b: seq<byte>)
    requires OVERHEAD <= |b| && U32At(b, 0) == conv && U32At(b, 20) <= |b| - OVERHEAD && KnownCmd(b[4])
    ensures OnWire(Decode(b, U32At(b, 20)))
    ensures var r := Parse(conv, b[OVERHEAD + U32At(b, 20)..]);
            Parse(conv, b) == Parsed([Decode(b, U32At(b, 20))] + r.wires, r.status)
  {
  }

  /** What the parse loop returns when rest is what it has not read.  Less than a header ends
      it; otherwise the connection number, the length, or the command is wrong, in the order
      in which they are looked at. */
  predicate StopsWith(conv: u32, rest: seq<byte>, status: int) {
    if |rest| < 24 then status == 0
    else if Value(rest[0..4]) != conv then status == -1
    else if Value(rest[20..24]) > |rest| - 24 then status == -2
    else !(81 <= rest[4] <= 84) && status == -3
  }

  lemma StopsHere(conv: u32, b: seq<byte>)
    requires Parse(conv, b).wires == []
    ensures StopsWith(conv, b, Parse(conv, b).status) && EncodeAll([]) == []
  {
    hide Value, U32At;
    if |b| >= 24 {
      ValueOfFour(b, 0);
      ValueOfFour(b, 20);
    }
  }

  /** The first segment takes n bytes. */
  lemma FirstTaken(conv: u32, b: seq<byte>) returns (n: nat)
    requires Parse(conv, b).wires != []
    ensures 0 < n <= |b| && Parse(conv, b).status == Parse(conv, b[n..]).status
    ensures |EncodeAll(Parse(conv, b).wires)| == n + |EncodeAll(Parse(conv, b[n..]).wires)|
  {
    n := OVERHEAD + U32At(b, 20);
    ParseNext(conv, b);
    var w, ws := Decode(b, U32At(b, 20)), Parse(conv, b[n..]).wires;
    hide Parse, Decode;
    EncodeCons(w, ws);
  }

  /** The value ikcp_input returns for the bytes it was given. */
  lemma {:induction false} ParseStops(conv: u32, b: seq<byte>)
    ensures var r := Parse(conv, b);
            |EncodeAll(r.wires)| <= |b| && StopsWith(conv, b[|EncodeAll(r.wires)|..], r.status)
    decreases |b|
  {
    hide StopsWith, Parse, EncodeAll;
    if Parse(conv, b).wires == [] {
      StopsHere(conv, b);
      assert b[0..] == b;
    } else {
      var n := FirstTaken(conv, b);
      ParseStops(conv, b[n..]);
      var k := |EncodeAll(Parse(conv, b[n..]).wires)|;
      assert b[n..][k..] == b[n + k..];
    }
  }
}
