/** Cutting a media frame into slices that fit one datagram, and putting it together
    again.  Headers are the bytes of sliceDataHeader_s: 64, low-order bytes first. */
module MediaSlice {
  import opened Basics
  import opened Serial

  type u64 = x: int | 0 <= x < 0x1_0000_0000_0000_0000

  const MTU: nat := 1376
  const HEAD: nat := 64
  const SLICE: nat := 1312

  /** The seven fields that are copied; the others of frameInfo_s are not. */
  datatype Info = Info(frameType: u16, encodeType: u16, frameRate: u16, frameGop: u16,
                       frameIndex: u64, frmPts: u64, utcPts: u64)

  // ------------------------------------------------------------- numbers as bytes

  function Power(n: nat): (p: nat)
    ensures p >= 1
  {
    if n == 0 then 1 else 0x100 * Power(n - 1)
  }

  /** The n low-order bytes of x. */
  function Bytes(x: nat, n: nat): (s: seq<byte>)
    ensures |s| == n
    decreases n
  {
    if n == 0 then [] else [x % 0x100] + Bytes(x / 0x100, n - 1)
  }

  lemma {:induction false} ValueOfBytes(x: nat, n: nat)
    requires x < Power(n)
    ensures Value(Bytes(x, n)) == x
    decreases n
  {
    if n > 0 {
      ValueOfBytes(x / 0x100, n - 1);
      assert Bytes(x, n)[1..] == Bytes(x / 0x100, n - 1);
    }
  }

  lemma Powers()
    ensures Power(2) == 0x1_0000 && Power(8) == 0x1_0000_0000_0000_0000
  {
    assert Power(4) == 0x1_0000_0000;
    assert Power(6) == 0x1_0000_0000_0000;
  }

  // ---------------------------------------------------------------- the header

  /** Assigning one field of a header. */
  function Put(h: seq<byte>, at: nat, x: nat, n: nat): (r: seq<byte>)
    requires at + n <= |h|
    ensures |r| == |h|
  {
    h[..at] + Bytes(x, n) + h[at + n..]
  }

  /** The header of one slice; before: what the variable held, for the bytes that are
      never assigned. */
  function Header(v: Info, total: u16, index: u16, len: u16, before: seq<byte>): (h: seq<byte>)
    requires |before| == HEAD
    ensures |h| == HEAD
  {
    var h1 := Put(Put(before, 4, v.encodeType, 2), 2, v.frameType, 2);
    var h2 := Put(Put(h1, 10, v.frameRate, 2), 12, v.frameGop, 2);
    var h3 := Put(Put(Put(h2, 24, v.frameIndex, 8), 32, v.frmPts, 8), 40, v.utcPts, 8);
    Put(Put(Put(h3, 56, total, 2), 58, index, 2), 60, len, 2)
  }

  function Field(h: seq<byte>, at: nat, n: nat): nat
    requires at + n <= |h|
  {
    Value(h[at..at + n])
  }

  function Total(h: seq<byte>): nat
    requires |h| == HEAD
  {
    Field(h, 56, 2)
  }

  function PacketLen(h: seq<byte>): nat
    requires |h| == HEAD
  {
    Field(h, 60, 2)
  }

  function InfoOf(h: seq<byte>): Info
    requires |h| == HEAD
  {
    Powers();
    FieldFits(h, 2, 2);
    FieldFits(h, 4, 2);
    FieldFits(h, 10, 2);
    FieldFits(h, 12, 2);
    FieldFits(h, 24, 8);
    FieldFits(h, 32, 8);
    FieldFits(h, 40, 8);
    Info(Field(h, 2, 2), Field(h, 4, 2), Field(h, 10, 2), Field(h, 12, 2), Field(h, 24, 8), Field(h, 32, 8), Field(h, 40, 8))
  }

  lemma {:induction false} ValueFits(s: seq<byte>)
    ensures Value(s) < Power(|s|)
  {
    if s != [] {
      ValueFits(s[1..]);
    }
  }

  lemma FieldFits(h: seq<byte>, at: nat, n: nat)
    requires at + n <= |h|
    ensures Field(h, at, n) < Power(n)
  {
    ValueFits(h[at..at + n]);
  }

  lemma PutSame(h: seq<byte>, at: nat, x: nat, n: nat)
    requires at + n <= |h| && x < Power(n)
    ensures Field(Put(h, at, x, n), at, n) == x
  {
    assert Put(h, at, x, n)[at..at + n] == Bytes(x, n);
    ValueOfBytes(x, n);
  }

  lemma PutOther(h: seq<byte>, at: nat, x: nat, n: nat, at2: nat, n2: nat)
    requires at + n <= |h| && at2 + n2 <= |h| && (at2 + n2 <= at || at + n <= at2)
    ensures Field(Put(h, at, x, n), at2, n2) == Field(h, at2, n2)
  {
    assert Put(h, at, x, n)[at2..at2 + n2] == h[at2..at2 + n2];
  }

  /** The assignments after the one to a field leave it alone. */
  lemma CountsRead(h: seq<byte>, total: u16, index: u16, len: u16)
    requires |h| == HEAD
    ensures var r := Put(Put(Put(h, 56, total, 2), 58, index, 2), 60, len, 2);
            Total(r) == total && Field(r, 58, 2) == index && PacketLen(r) == len && InfoOf(r) == InfoOf(h)
  {
    Powers();
    var a := Put(h, 56, total, 2);
    var b := Put(a, 58, index, 2);
    PutSame(a, 58, index, 2);
    PutOther(b, 60, len, 2, 58, 2);
    PutSame(h, 56, total, 2);
    PutSame(b, 60, len, 2);
    PutOther(a, 58, index, 2, 56, 2);
    PutOther(b, 60, len, 2, 56, 2);
    forall at: nat, n: nat | at + n <= 56
      ensures Field(Put(b, 60, len, 2), at, n) == Field(h, at, n)
    {
      PutOther(h, 56, total, 2, at, n);
      PutOther(a, 58, index, 2, at, n);
      PutOther(b, 60, len, 2, at, n);
    }
  }

  lemma TimesRead(h: seq<byte>, v: Info)
    requires |h| == HEAD
    ensures var r := Put(Put(Put(h, 24, v.frameIndex, 8), 32, v.frmPts, 8), 40, v.utcPts, 8);
            InfoOf(r) == InfoOf(h).(frameIndex := v.frameIndex, frmPts := v.frmPts, utcPts := v.utcPts)
  {
    Powers();
    var a := Put(h, 24, v.frameIndex, 8);
    var b := Put(a, 32, v.frmPts, 8);
    var c := Put(b, 40, v.utcPts, 8);
    PutSame(h, 24, v.frameIndex, 8);
    PutSame(a, 32, v.frmPts, 8);
    PutSame(b, 40, v.utcPts, 8);
    PutOther(a, 32, v.frmPts, 8, 24, 8);
    PutOther(b, 40, v.utcPts, 8, 24, 8);
    PutOther(b, 40, v.utcPts, 8, 32, 8);
    forall at: nat, n: nat | at + n <= 24
      ensures Field(c, at, n) == Field(h, at, n)
    {
      PutOther(h, 24, v.frameIndex, 8, at, n);
      PutOther(a, 32, v.frmPts, 8, at, n);
      PutOther(b, 40, v.utcPts, 8, at, n);
    }
  }

  lemma RatesRead(h: seq<byte>, v: Info)
    requires |h| == HEAD
    ensures var r := Put(Put(h, 10, v.frameRate, 2), 12, v.frameGop, 2);
            InfoOf(r).frameRate == v.frameRate && InfoOf(r).frameGop == v.frameGop
            && InfoOf(r).frameType == InfoOf(h).frameType && InfoOf(r).encodeType == InfoOf(h).encodeType
  {
    Powers();
    var a := Put(h, 10, v.frameRate, 2);
    PutSame(h, 10, v.frameRate, 2);
    PutSame(a, 12, v.frameGop, 2);
    PutOther(a, 12, v.frameGop, 2, 10, 2);
    forall at: nat, n: nat | at + n <= 10
      ensures Field(Put(a, 12, v.frameGop, 2), at, n) == Field(h, at, n)
    {
      PutOther(h, 10, v.frameRate, 2, at, n);
      PutOther(a, 12, v.frameGop, 2, at, n);
    }
  }

  lemma TypesRead(h: seq<byte>, v: Info)
    requires |h| == HEAD
    ensures var r := Put(Put(h, 4, v.encodeType, 2), 2, v.frameType, 2);
            InfoOf(r).frameType == v.frameType && InfoOf(r).encodeType == v.encodeType
  {
    Powers();
    var a := Put(h, 4, v.encodeType, 2);
    PutSame(h, 4, v.encodeType, 2);
    PutSame(a, 2, v.frameType, 2);
    PutOther(a, 2, v.frameType, 2, 4, 2);
  }

  /** Whatever the variable held before, the header says what was assigned. */
  lemma HeaderReads(v: Info, total: u16, index: u16, len: u16, before: seq<byte>)
    requires |before| == HEAD
    ensures var h := Header(v, total, index, len, before);
            InfoOf(h) == v && Total(h) == total && Field(h, 58, 2) == index && PacketLen(h) == len
  {
    var h1 := Put(Put(before, 4, v.encodeType, 2), 2, v.frameType, 2);
    var h2 := Put(Put(h1, 10, v.frameRate, 2), 12, v.frameGop, 2);
    var h3 := Put(Put(Put(h2, 24, v.frameIndex, 8), 32, v.frmPts, 8), 40, v.utcPts, 8);
    TypesRead(before, v);
    RatesRead(h1, v);
    TimesRead(h2, v);
    CountsRead(h3, total, index, len);
  }

  // ------------------------------------------------------------------ packing

  /** How many slices len bytes take. */
  function Count(len: nat): (k: nat)
    ensures len <= SLICE * k < len + SLICE
  {
    len / SLICE + (if len % SLICE != 0 then 1 else 0)
  }

  /** Where slice i starts in the source, and slice i - 1 ends. */
  function StartOf(len: nat, i: nat): (s: nat)
    ensures s <= len
  {
    if SLICE * i <= len then SLICE * i else len
  }

  /** Slice i; the 16-bit header fields keep what fits of the numbers. */
  function SliceAt(v: Info, src: seq<byte>, before: seq<byte>, i: nat): (s: seq<byte>)
    requires i < Count(|src|) && |before| == HEAD
    ensures HEAD < |s| <= MTU
  {
    Header(v, Wrap16(Count(|src|)), Wrap16(i + 1), StartOf(|src|, i + 1) - StartOf(|src|, i), before)
    + src[StartOf(|src|, i)..StartOf(|src|, i + 1)]
  }

  /** The first k slices. */
  function Slices(v: Info, src: seq<byte>, before: seq<byte>, k: nat): (s: seq<byte>)
    requires k <= Count(|src|) && |before| == HEAD
    ensures |s| <= k * MTU
  {
    if k == 0 then [] else Slices(v, src, before, k - 1) + SliceAt(v, src, before, k - 1)
  }

  function Pack(v: Info, src: seq<byte>, before: seq<byte>): seq<byte>
    requires |before| == HEAD
  {
    Slices(v, src, before, Count(|src|))
  }

  /** memcpy to dest at position at. */
  method MemCpy(dest: array<byte>, at: nat, data: seq<byte>)
    requires at + |data| <= dest.Length
    modifies dest
    ensures dest[..at] == old(dest[..at]) && dest[..at + |data|] == old(dest[..at]) + data
  {
    for i := 0 to |data|
      invariant dest[..at] == old(dest[..at]) && dest[at..at + i] == data[..i]
    {
      dest[at + i] := data[i];
    }
    assert dest[..at + |data|] == dest[..at] + dest[at..at + |data|];
    assert data[..|data|] == data;
  }

  /** The two copies of one slice. */
  method PutSlice(dest: array<byte>, at: nat, header: seq<byte>, data: seq<byte>) returns (next: nat)
    requires at + |header| + |data| <= dest.Length
    modifies dest
    ensures next == at + |header| + |data| && dest[..next] == old(dest[..at]) + header + data
  {
    MemCpy(dest, at, header);
    MemCpy(dest, at + |header|, data);
    next := at + |header| + |data|;
  }

  /** media_data_slice_pack */
  method PackFrame(v: Info, src: seq<byte>, before: seq<byte>) returns (dest: array<byte>, destLen: nat, packetNum: nat)
    requires |before| == HEAD
    ensures fresh(dest) && destLen <= dest.Length && dest[..destLen] == Pack(v, src, before)
    ensures packetNum == Count(|src|)
  {
    hide Header, SliceAt, Put;
    var total := Count(|src|);
    dest := new byte[total * MTU];
    destLen := 0;
    var srcIndex := 0;
    assert dest[..0] == [];
    for i := 0 to total
      invariant destLen <= i * MTU && dest[..destLen] == Slices(v, src, before, i)
      invariant srcIndex == StartOf(|src|, i)
    {
      SliceBounds(|src|, i, total);
      var packetLen := if i != total - 1 then SLICE else |src| - srcIndex;
      SliceIs(v, src, before, i);
      if packetLen > 0 {
        var header := Header(v, Wrap16(total), Wrap16(i + 1), packetLen, before);
        destLen := PutSlice(dest, destLen, header, src[srcIndex..srcIndex + packetLen]);
        srcIndex := srcIndex + packetLen;
      }
    }
    packetNum := total;
  }

  lemma SliceIs(v: Info, src: seq<byte>, before: seq<byte>, i: nat)
    requires i < Count(|src|) && |before| == HEAD
    ensures var len := StartOf(|src|, i + 1) - StartOf(|src|, i);
            && len <= SLICE
            && (Slices(v, src, before, i) + Header(v, Wrap16(Count(|src|)), Wrap16(i + 1), len, before))
               + src[StartOf(|src|, i)..StartOf(|src|, i) + len]
               == Slices(v, src, before, i + 1)
  {
    hide Header;
  }

  lemma SliceBounds(len: nat, i: nat, total: nat)
    requires total == Count(len) && i < total
    ensures StartOf(len, i) == SLICE * i < len && StartOf(len, i + 1) == (if i == total - 1 then len else SLICE * (i + 1))
    ensures 0 < StartOf(len, i + 1) - StartOf(len, i) <= SLICE && (i + 1) * MTU <= total * MTU
  {
  }

  // ---------------------------------------------------------------- unpacking

  /** Got: the payloads and where the reading stopped; TooLong: a slice claims more than
      a slice can hold; Outside: a read past the end of src, which the code does not check. */
  datatype Unpacked = Got(data: seq<byte>, end: nat) | TooLong | Outside

  /** The slice loop, for k slices from position at on. */
  function Unslice(src: seq<byte>, at: nat, k: nat): (r: Unpacked)
    ensures r.Got? && at <= |src| ==> r.end == at + HEAD * k + |r.data| <= |src|
    decreases k
  {
    if k == 0 then Got([], at)
    else if at + HEAD > |src| then Outside
    else
      var len := PacketLen(src[at..at + HEAD]);
      if len > SLICE then TooLong
      else if at + HEAD + len > |src| then Outside
      else
        match Unslice(src, at + HEAD + len, k - 1)
        case Got(data, end) => Got(src[at + HEAD..at + HEAD + len] + data, end)
        case other => other
  }

  /** media_data_slice_unpack, on a source that holds at least a header. */
  function Unpack(src: seq<byte>): Unpacked
    requires |src| >= HEAD
  {
    Unslice(src, 0, Total(src[0..HEAD]))
  }

  /** What has been copied, in front of what the rest of the loop will copy. */
  function Behind(done: seq<byte>, r: Unpacked): Unpacked {
    match r
    case Got(data, end) => Got(done + data, end)
    case other => other
  }

  lemma UnsliceStep(src: seq<byte>, at: nat, k: nat, done: seq<byte>)
    requires 0 < k && at <= |src| && Unslice(src, at, k) != Outside
    ensures at + HEAD <= |src|
    ensures var len := PacketLen(src[at..at + HEAD]);
            if len > SLICE then Behind(done, Unslice(src, at, k)) == TooLong
            else at + HEAD + len <= |src|
                 && Behind(done, Unslice(src, at, k))
                    == Behind(done + src[at + HEAD..at + HEAD + len], Unslice(src, at + HEAD + len, k - 1))
                 && Unslice(src, at + HEAD + len, k - 1) != Outside
  {
    var len := PacketLen(src[at..at + HEAD]);
    if len <= SLICE && Unslice(src, at + HEAD + len, k - 1).Got? {
      var data := Unslice(src, at + HEAD + len, k - 1).data;
      assert done + (src[at + HEAD..at + HEAD + len] + data) == (done + src[at + HEAD..at + HEAD + len]) + data;
    }
  }

  /** media_data_slice_unpack; it must only be given a source in which every slice it
      will look at is there. */
  method UnpackFrame(before: Info, src: seq<byte>) returns (ret: int, info: Info, dest: array<byte>, destLen: nat)
    requires |src| >= HEAD && Unpack(src) != Outside
    ensures fresh(dest) && destLen <= dest.Length
    ensures info == if Total(src[0..HEAD]) > 0 then InfoOf(src[0..HEAD]) else before
    ensures ret == (if Unpack(src) == TooLong then -1 else 0)
    ensures ret == 0 ==> Unpack(src).data == dest[..destLen]
  {
    hide InfoOf, Total, PacketLen, Unslice, Behind;
    dest := new byte[|src|];
    var header := src[0..HEAD];
    var total := Total(header);
    info, destLen := before, 0;
    var srcIndex := 0;
    assert dest[..0] == [];
    UnsliceStart(src, total);
    for i := 0 to total
      invariant srcIndex <= |src| && srcIndex == destLen + HEAD * i
      invariant Unslice(src, srcIndex, total - i) != Outside && (i == 0 ==> destLen == 0 && header == src[0..HEAD])
      invariant Unpack(src) == Behind(dest[..destLen], Unslice(src, srcIndex, total - i))
      invariant info == if i > 0 then InfoOf(src[0..HEAD]) else before
    {
      UnsliceStep(src, srcIndex, total - i, dest[..destLen]);
      if i == 0 {
        info := InfoOf(header);
      } else {
        header := src[srcIndex..srcIndex + HEAD];
      }
      srcIndex := srcIndex + HEAD;
      var packetLen := PacketLen(header);
      if packetLen > SLICE {
        return -1, info, dest, destLen;
      }
      MemCpy(dest, destLen, src[srcIndex..srcIndex + packetLen]);
      srcIndex := srcIndex + packetLen;
      destLen := destLen + packetLen;
    }
    UnsliceEnd(src, srcIndex, dest[..destLen]);
    ret := 0;
  }

  lemma UnsliceStart(src: seq<byte>, k: nat)
    ensures Behind([], Unslice(src, 0, k)) == Unslice(src, 0, k)
  {
  }

  lemma UnsliceEnd(src: seq<byte>, at: nat, done: seq<byte>)
    ensures Behind(done, Unslice(src, at, 0)) == Got(done, at)
  {
  }

  // ---------------------------------------------------------------- round trip

  /** Slice i, lying behind front, is read back. */
  lemma SliceParses(v: Info, src: seq<byte>, before: seq<byte>, i: nat, front: seq<byte>, rest: seq<byte>)
    requires i < Count(|src|) && |before| == HEAD
    ensures var packed := front + SliceAt(v, src, before, i) + rest;
            var at := |front|;
            && PacketLen(packed[at..at + HEAD]) == StartOf(|src|, i + 1) - StartOf(|src|, i) <= SLICE
            && InfoOf(packed[at..at + HEAD]) == v && Total(packed[at..at + HEAD]) == Wrap16(Count(|src|))
            && packed[at + HEAD..at + |SliceAt(v, src, before, i)|] == src[StartOf(|src|, i)..StartOf(|src|, i + 1)]
  {
    hide Header, InfoOf, Total, PacketLen, Field, Count;
    var total := Count(|src|);
    SliceBounds(|src|, i, total);
    var len := StartOf(|src|, i + 1) - StartOf(|src|, i);
    HeaderReads(v, Wrap16(total), Wrap16(i + 1), len, before);
    var h, s := Header(v, Wrap16(total), Wrap16(i + 1), len, before), SliceAt(v, src, before, i);
    var packed := front + s + rest;
    assert packed[|front|..|front| + HEAD] == h;
  }

  lemma {:induction false} SlicesPrefix(v: Info, src: seq<byte>, before: seq<byte>, j: nat, k: nat)
    requires j <= k <= Count(|src|) && |before| == HEAD
    ensures Slices(v, src, before, j) <= Slices(v, src, before, k)
    decreases k
  {
    if j < k {
      SlicesPrefix(v, src, before, j, k - 1);
    }
  }

  /** A packed frame around its slice j. */
  lemma PackSplits(v: Info, src: seq<byte>, before: seq<byte>, j: nat) returns (rest: seq<byte>)
    requires j < Count(|src|) && |before| == HEAD
    ensures Pack(v, src, before) == Slices(v, src, before, j) + SliceAt(v, src, before, j) + rest
  {
    hide SliceAt, Slices;
    SlicesPrefix(v, src, before, j + 1, Count(|src|));
    SliceLength(v, src, before, j);
    rest := Pack(v, src, before)[|Slices(v, src, before, j + 1)|..];
  }

  /** Unpacking k of the slices of a packed frame gives the bytes of those slices. */
  lemma {:induction false} SlicesUnpack(v: Info, src: seq<byte>, before: seq<byte>, j: nat, k: nat)
    requires j + k <= Count(|src|) && |before| == HEAD
    ensures var r := Unslice(Pack(v, src, before), |Slices(v, src, before, j)|, k);
            r.Got? && r.data == src[StartOf(|src|, j)..StartOf(|src|, j + k)]
    decreases k
  {
    hide SliceAt, Slices, Pack, PacketLen, StartOf, Count, Unslice;
    if k > 0 {
      SlicesUnpack(v, src, before, j + 1, k - 1);
      OneMore(v, src, before, j, k);
    } else {
      UnsliceNone(Pack(v, src, before), |Slices(v, src, before, j)|);
    }
  }

  lemma UnsliceNone(src: seq<byte>, at: nat)
    ensures Unslice(src, at, 0) == Got([], at)
  {
  }

  lemma OneMore(v: Info, src: seq<byte>, before: seq<byte>, j: nat, k: nat)
    requires 0 < k && j + k <= Count(|src|) && |before| == HEAD
    requires var r := Unslice(Pack(v, src, before), |Slices(v, src, before, j + 1)|, k - 1);
             r.Got? && r.data == src[StartOf(|src|, j + 1)..StartOf(|src|, j + k)]
    ensures var r := Unslice(Pack(v, src, before), |Slices(v, src, before, j)|, k);
            r.Got? && r.data == src[StartOf(|src|, j)..StartOf(|src|, j + k)]
  {
    hide SliceAt, Slices, Pack, PacketLen, InfoOf, Total, StartOf, Count, Unslice;
    var front, s, packed := Slices(v, src, before, j), SliceAt(v, src, before, j), Pack(v, src, before);
    var rest := PackSplits(v, src, before, j);
    SliceParses(v, src, before, j, front, rest);
    SliceLength(v, src, before, j);
    Ordered(|src|, j, k);
    var a, b, c := StartOf(|src|, j), StartOf(|src|, j + 1), StartOf(|src|, j + k);
    UnsliceOne(packed, |front|, k, b - a, src[b..c]);
    assert src[a..c] == src[a..b] + src[b..c];
  }

  lemma Ordered(len: nat, j: nat, k: nat)
    requires k > 0
    ensures StartOf(len, j) <= StartOf(len, j + 1) <= StartOf(len, j + k)
  {
  }

  lemma SliceLength(v: Info, src: seq<byte>, before: seq<byte>, i: nat)
    requires i < Count(|src|) && |before| == HEAD
    ensures |SliceAt(v, src, before, i)| == HEAD + StartOf(|src|, i + 1) - StartOf(|src|, i)
    ensures Slices(v, src, before, i + 1) == Slices(v, src, before, i) + SliceAt(v, src, before, i)
  {
  }

  lemma UnsliceOne(src: seq<byte>, at: nat, k: nat, len: nat, data: seq<byte>)
    requires 0 < k && at + HEAD + len <= |src| && PacketLen(src[at..at + HEAD]) == len <= SLICE
    requires Unslice(src, at + HEAD + len, k - 1).Got? && Unslice(src, at + HEAD + len, k - 1).data == data
    ensures Unslice(src, at, k).Got? && Unslice(src, at, k).data == src[at + HEAD..at + HEAD + len] + data
  {
  }

  /** The header of a packed frame names the frame and the number of slices, as far as
      16 bits hold it. */
  lemma FirstHeader(v: Info, src: seq<byte>, before: seq<byte>)
    requires |src| > 0 && |before| == HEAD
    ensures var packed := Pack(v, src, before);
            |packed| >= HEAD && InfoOf(packed[0..HEAD]) == v && Total(packed[0..HEAD]) == Wrap16(Count(|src|))
  {
    var rest := PackSplits(v, src, before, 0);
    SliceParses(v, src, before, 0, [], rest);
    assert Slices(v, src, before, 0) == [];
  }

  /** Unpacking a packed frame gives back its bytes, and the seven fields, exactly when
      the number of its slices fits the 16-bit field of the header. */
  lemma RoundTrip(v: Info, src: seq<byte>, before: seq<byte>)
    requires |src| > 0 && |before| == HEAD
    ensures var packed := Pack(v, src, before);
            && |packed| >= HEAD && InfoOf(packed[0..HEAD]) == v
            && Unpack(packed).Got?
            && (Unpack(packed).data == src <==> Count(|src|) <= 0xffff)
  {
    assert Slices(v, src, before, 0) == [];
    hide Slices, SliceAt, Pack, InfoOf, Total, Unslice, StartOf, Count;
    var total := Count(|src|);
    FirstHeader(v, src, before);
    WhatCounts(|src|, total);
    SlicesUnpack(v, src, before, 0, Wrap16(total));
    assert src[0..|src|] == src;
  }

  lemma WhatCounts(len: nat, total: nat)
    requires total == Count(len) && len > 0
    ensures StartOf(len, 0) == 0 && Wrap16(total) <= total && (StartOf(len, Wrap16(total)) == len <==> total <= 0xffff)
  {
  }

  lemma {:induction false} FullSlices(v: Info, src: seq<byte>, before: seq<byte>, j: nat)
    requires j < Count(|src|) && |before| == HEAD
    ensures |Slices(v, src, before, j)| == 1376 * j
  {
    if j > 0 {
      FullSlices(v, src, before, j - 1);
      SliceLength(v, src, before, j - 1);
      SliceBounds(|src|, j - 1, Count(|src|));
    }
  }

  /** What stands where in slice i: the frame's own fields, the number of slices and the
      slice's own number from 1 on, each as far as 16 bits hold it, the length of the payload,
      and after 64 bytes the payload, the next 1312 bytes of the frame or what is left. */
  ghost predicate SliceLayout(v: Info, src: seq<byte>, i: nat, s: seq<byte>) {
    && |s| >= 64 && 1312 * i < |src| && |s| - 64 == (if |src| - 1312 * i < 1312 then |src| - 1312 * i else 1312)
    && Value(s[2..4]) == v.frameType && Value(s[4..6]) == v.encodeType
    && Value(s[10..12]) == v.frameRate && Value(s[12..14]) == v.frameGop
    && Value(s[24..32]) == v.frameIndex && Value(s[32..40]) == v.frmPts && Value(s[40..48]) == v.utcPts
    && Value(s[56..58]) == (|src| + 1311) / 1312 % 0x1_0000
    && Value(s[58..60]) == (i + 1) % 0x1_0000
    && Value(s[60..62]) == |s| - 64
    && s[64..] == src[1312 * i..1312 * i + |s| - 64]
  }

  lemma FieldOf(h: seq<byte>, s: seq<byte>, at: nat, n: nat)
    requires h <= s && at + n <= |h|
    ensures Value(s[at..at + n]) == Field(h, at, n)
  {
    assert s[at..at + n] == h[at..at + n];
  }

  lemma HeaderLayout(v: Info, h: seq<byte>, s: seq<byte>)
    requires |h| == HEAD && h <= s && InfoOf(h) == v
    ensures Value(s[2..4]) == v.frameType && Value(s[4..6]) == v.encodeType
    ensures Value(s[10..12]) == v.frameRate && Value(s[12..14]) == v.frameGop
    ensures Value(s[24..32]) == v.frameIndex && Value(s[32..40]) == v.frmPts && Value(s[40..48]) == v.utcPts
    ensures Value(s[56..58]) == Total(h) && Value(s[58..60]) == Field(h, 58, 2) && Value(s[60..62]) == PacketLen(h)
  {
    hide Value, Field;
    FieldOf(h, s, 2, 2);
    FieldOf(h, s, 4, 2);
    FieldOf(h, s, 10, 2);
    FieldOf(h, s, 12, 2);
    FieldOf(h, s, 24, 8);
    FieldOf(h, s, 32, 8);
    FieldOf(h, s, 40, 8);
    FieldOf(h, s, 56, 2);
    FieldOf(h, s, 58, 2);
    FieldOf(h, s, 60, 2);
  }

  lemma SliceSplits(v: Info, src: seq<byte>, before: seq<byte>, i: nat)
    requires i < Count(|src|) && |before| == HEAD
    ensures Count(|src|) == (|src| + 1311) / 1312
    ensures var len := StartOf(|src|, i + 1) - StartOf(|src|, i);
            && 1312 * i < |src| && len == (if |src| - 1312 * i < 1312 then |src| - 1312 * i else 1312)
            && SliceAt(v, src, before, i)
               == Header(v, Wrap16(Count(|src|)), Wrap16(i + 1), len, before) + src[1312 * i..1312 * i + len]
  {
    hide Header;
    SliceBounds(|src|, i, Count(|src|));
  }

  lemma SlicesLaidOut(v: Info, src: seq<byte>, before: seq<byte>, i: nat)
    requires i < Count(|src|) && |before| == HEAD
    ensures SliceLayout(v, src, i, SliceAt(v, src, before, i))
  {
    hide Header, InfoOf, Value, Field, Total, PacketLen, SliceAt, StartOf, Count;
    SliceSplits(v, src, before, i);
    var total, len := Count(|src|), StartOf(|src|, i + 1) - StartOf(|src|, i);
    HeaderReads(v, Wrap16(total), Wrap16(i + 1), len, before);
    HeaderLayout(v, Header(v, Wrap16(total), Wrap16(i + 1), len, before), SliceAt(v, src, before, i));
  }

  /** Slice i of a packed frame starts 1376 * i bytes into it, and is laid out so. */
  lemma PackedLayout(v: Info, src: seq<byte>, before: seq<byte>, i: nat)
    requires i < (|src| + 1311) / 1312 && |before| == 64
    ensures var packed := Pack(v, src, before);
            var at, len := 1376 * i, if |src| - 1312 * i < 1312 then |src| - 1312 * i else 1312;
            at + 64 + len <= |packed| && SliceLayout(v, src, i, packed[at..at + 64 + len])
  {
    assert Count(|src|) == (|src| + 1311) / 1312;
    FullSlices(v, src, before, i);
    SlicesLaidOut(v, src, before, i);
    var rest := PackSplits(v, src, before, i);
    hide SliceAt, Slices, Pack;
    var front, s := Slices(v, src, before, i), SliceAt(v, src, before, i);
    assert (front + s + rest)[|front|..|front| + |s|] == s;
  }

  // --------------------------------------------------------------- any source at all

  /** Where slice j starts, reading the lengths in the headers before it. */
  function SliceStart(src: seq<byte>, j: nat): (p: nat) {
    if j == 0 then 0
    else
      var q := SliceStart(src, j - 1);
      if q + 64 <= |src| then q + 64 + Value(src[q + 60..q + 62]) else q
  }

  /** The header of slice j is there. */
  predicate HeaderThere(src: seq<byte>, j: nat) {
    SliceStart(src, j) + 64 <= |src|
  }

  /** It claims no more than a slice can hold, and all of that is there. */
  predicate Whole(src: seq<byte>, j: nat) {
    HeaderThere(src, j) && Value(src[SliceStart(src, j) + 60..SliceStart(src, j) + 62]) <= 1312 && SliceStart(src, j + 1) <= |src|
  }

  ghost predicate AllWhole(src: seq<byte>, k: nat) {
    forall i :: 0 <= i < k ==> Whole(src, i)
  }

  /** Slice j is the first that is not whole, and claims too much. */
  ghost predicate Claims(src: seq<byte>, j: nat) {
    AllWhole(src, j) && HeaderThere(src, j) && Value(src[SliceStart(src, j) + 60..SliceStart(src, j) + 62]) > 1312
  }

  /** The payloads of slices j to k - 1. */
  ghost function Payloads(src: seq<byte>, j: nat, k: nat): seq<byte>
    requires j <= k && AllWhole(src, k)
    decreases k - j
  {
    if j == k then []
    else
      assert Whole(src, j);
      src[SliceStart(src, j) + 64..SliceStart(src, j + 1)] + Payloads(src, j + 1, k)
  }

  lemma LengthField(src: seq<byte>, p: nat)
    requires p + 64 <= |src|
    ensures PacketLen(src[p..p + 64]) == Value(src[p + 60..p + 62])
  {
    var h := src[p..p + 64];
    assert h[60..62] == [h[60], h[61]] && src[p + 60..p + 62] == [src[p + 60], src[p + 61]];
  }

  /** What the loop makes of the slices from j on. */
  ghost predicate UnsliceIs(src: seq<byte>, j: nat, k: nat, r: Unpacked)
    requires j <= k
  {
    && (r.Got? <==> AllWhole(src, k))
    && (r.Got? ==> r.data == Payloads(src, j, k))
    && (r.TooLong? <==> exists i :: j <= i < k && Claims(src, i))
  }

  lemma {:induction false} UnsliceFrom(src: seq<byte>, j: nat, k: nat)
    requires j <= k && AllWhole(src, j)
    ensures UnsliceIs(src, j, k, Unslice(src, SliceStart(src, j), k - j))
    decreases k - j
  {
    hide Value, SliceStart, Unslice, Whole, Claims;
    UnsliceTurn(src, SliceStart(src, j), k - j);
    if j < k {
      OnlyFirst(src, j, k);
      if Whole(src, j) {
        WholeMeans(src, j);
        UnsliceFrom(src, j + 1, k);
      } else {
        NotWhole(src, j);
      }
    }
  }

  lemma UnsliceTurn(src: seq<byte>, p: nat, m: nat)
    ensures m == 0 ==> Unslice(src, p, m) == Got([], p)
    ensures m > 0 && p + 64 > |src| ==> Unslice(src, p, m) == Outside
    ensures m > 0 && p + 64 <= |src| ==>
              var len := Value(src[p + 60..p + 62]);
              var r := Unslice(src, p, m);
              && (len > 1312 ==> r == TooLong)
              && (len <= 1312 && p + 64 + len > |src| ==> r == Outside)
              && (len <= 1312 && p + 64 + len <= |src| ==> r == Behind(src[p + 64..p + 64 + len], Unslice(src, p + 64 + len, m - 1)))
  {
    hide Value, PacketLen;
    if p + 64 <= |src| {
      LengthField(src, p);
    }
  }

  lemma WholeMeans(src: seq<byte>, j: nat)
    requires Whole(src, j)
    ensures var p := SliceStart(src, j);
            && p + 64 <= |src| && Value(src[p + 60..p + 62]) <= 1312
            && SliceStart(src, j + 1) == p + 64 + Value(src[p + 60..p + 62]) <= |src|
  {
    hide Value;
  }

  lemma NotWhole(src: seq<byte>, j: nat)
    requires !Whole(src, j)
    ensures var p := SliceStart(src, j);
            && (Claims(src, j) <==> AllWhole(src, j) && p + 64 <= |src| && Value(src[p + 60..p + 62]) > 1312)
            && (p + 64 <= |src| ==> Value(src[p + 60..p + 62]) > 1312 || p + 64 + Value(src[p + 60..p + 62]) > |src|)
  {
    hide Value;
  }

  /** A slice that is not whole is not got over. */
  lemma OnlyFirst(src: seq<byte>, j: nat, k: nat)
    requires j < k
    ensures !Whole(src, j) ==> !AllWhole(src, k) && forall i :: j < i < k ==> !Claims(src, i)
    ensures Whole(src, j) ==> !Claims(src, j)
  {
    hide SliceStart, Value;
  }

  /** media_data_slice_unpack, on any source with a header: with k the number of slices in
      the first header, it reads all if and only if k slices are there, whole, one behind the
      other, and then it gives their payloads in order; and it returns its error if and
      only if the first slice that is not whole claims more than 1312 bytes. */
  lemma UnpackExactly(src: seq<byte>)
    requires |src| >= 64
    ensures UnsliceIs(src, 0, Value(src[56..58]), Unpack(src))
  {
    assert src[0..64][56..58] == src[56..58];
    UnsliceFrom(src, 0, Value(src[56..58]));
  }
}
