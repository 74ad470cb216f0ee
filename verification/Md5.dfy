/** The streaming interface of common_md5.c: however a message is cut into pieces, the
    digest is the one of the whole message as RFC 1321 defines it.  The block function
    of section 3.4 is a parameter. */
module Md5 {
  import opened Basics
  import opened Serial

  /** The chaining variables A, B, C, D of section 3.3. */
  datatype Chain = Chain(a: u32, b: u32, c: u32, d: u32)

  const INIT := Chain(0x67452301, 0xefcdab89, 0x98badcfe, 0x10325476)

  /** The first k blocks of data, folded into the chaining variables. */
  function Fold(f: (Chain, seq<byte>) -> Chain, data: seq<byte>, k: nat): Chain
    requires 64 * k <= |data|
  {
    if k == 0 then INIT else f(Fold(f, data, k - 1), data[64 * (k - 1)..64 * k])
  }

  lemma {:induction false} FoldPrefix(f: (Chain, seq<byte>) -> Chain, data: seq<byte>, more: seq<byte>, k: nat)
    requires 64 * k <= |data|
    ensures Fold(f, data + more, k) == Fold(f, data, k)
  {
    if k > 0 {
      FoldPrefix(f, data, more, k - 1);
      assert (data + more)[64 * (k - 1)..64 * k] == data[64 * (k - 1)..64 * k];
    }
  }

  // ------------------------------------------------- the definition of RFC 1321

  /** How many blocks a message of n bytes takes once it is padded. */
  function BlockCount(n: nat): (k: nat)
    ensures n + 9 <= 64 * k < n + 73
  {
    n / 64 + (if n % 64 < 56 then 1 else 2)
  }

  /** Section 3.1: a one bit, then zeros up to 56 modulo 64. */
  function PadLength(n: nat): (p: nat)
    ensures 1 <= p <= 64 && n + p + 8 == 64 * BlockCount(n)
  {
    64 * BlockCount(n) - 8 - n
  }

  function Padding(p: nat): (s: seq<byte>)
    requires p <= 64
    ensures |s| == p
  {
    seq(p, i => if i == 0 then 0x80 else 0)
  }

  /** A word as four bytes, the low-order one first. */
  function WordBytes(x: u32): (s: seq<byte>)
    ensures |s| == 4
  {
    [x % 0x100, x / 0x100 % 0x100, x / 0x1_0000 % 0x100, x / 0x100_0000 % 0x100]
  }

  /** Encode: word after word. */
  function Words(ws: seq<u32>): (s: seq<byte>)
    ensures |s| == 4 * |ws|
  {
    if ws == [] then [] else Words(ws[..|ws| - 1]) + WordBytes(ws[|ws| - 1])
  }

  /** Section 3.2: the length in bits modulo 2^64, the low-order word first. */
  function LengthBytes(n: nat): (s: seq<byte>)
    ensures |s| == 8
  {
    Words([Wrap32(8 * n), Wrap32(8 * n / 0x1_0000_0000)])
  }

  function Padded(msg: seq<byte>): (s: seq<byte>)
    ensures |s| == 64 * BlockCount(|msg|)
  {
    msg + Padding(PadLength(|msg|)) + LengthBytes(|msg|)
  }

  /** Section 3.5 */
  function Output(c: Chain): (s: seq<byte>)
    ensures |s| == 16
  {
    Words([c.a, c.b, c.c, c.d])
  }

  function Digest(f: (Chain, seq<byte>) -> Chain, msg: seq<byte>): seq<byte> {
    Output(Fold(f, Padded(msg), BlockCount(|msg|)))
  }

  /** The chaining variables start, in memory, as the bytes 01 23 45 67 89 ab cd ef, and then
      the same backwards (section 3.3). */
  lemma InitBytes()
    ensures Output(INIT) == [0x01, 0x23, 0x45, 0x67, 0x89, 0xab, 0xcd, 0xef, 0xfe, 0xdc, 0xba, 0x98, 0x76, 0x54, 0x32, 0x10]
  {
    OutputIs(INIT);
  }

  lemma WordsAppend(ws: seq<u32>, x: u32)
    ensures Words(ws + [x]) == Words(ws) + WordBytes(x)
  {
    assert (ws + [x])[..|ws|] == ws;
  }

  lemma OutputIs(c: Chain)
    ensures Output(c) == WordBytes(c.a) + WordBytes(c.b) + WordBytes(c.c) + WordBytes(c.d)
  {
    hide WordBytes;
    WordsAppend([], c.a);
    WordsAppend([c.a], c.b);
    WordsAppend([c.a, c.b], c.c);
    WordsAppend([c.a, c.b, c.c], c.d);
    assert [] + [c.a] == [c.a] && [c.a] + [c.b] == [c.a, c.b] && [c.a, c.b] + [c.c] == [c.a, c.b, c.c];
    assert [c.a, c.b, c.c] + [c.d] == [c.a, c.b, c.c, c.d];
  }

  /** Four digits to the base 256. */
  lemma FourDigits(x: u32)
    ensures x == x % 0x100 + 0x100 * (x / 0x100 % 0x100 + 0x100 * (x / 0x1_0000 % 0x100 + 0x100 * (x / 0x100_0000 % 0x100)))
  {
    var q := x / 0x100;
    var r := q / 0x100;
    var t := r / 0x100;
    assert x / 0x1_0000 == r && x / 0x100_0000 == t && 0 <= t < 0x100;
    assert x == x % 0x100 + 0x100 * q;
    assert q == q % 0x100 + 0x100 * r;
    assert r == r % 0x100 + 0x100 * t;
  }

  lemma ValueOfFour(b0: byte, b1: byte, b2: byte, b3: byte)
    ensures Value([b0, b1, b2, b3]) == b0 + 0x100 * (b1 + 0x100 * (b2 + 0x100 * (b3 as int)))
  {
    var b := [b0, b1, b2, b3];
    assert b[1..] == [b1, b2, b3] && [b1, b2, b3][1..] == [b2, b3] && [b2, b3][1..] == [b3] && [b3][1..] == [];
    assert Value([b3]) == b3 + 0x100 * Value([]);
    assert Value([b2, b3]) == b2 + 0x100 * Value([b3]);
    assert Value([b1, b2, b3]) == b1 + 0x100 * Value([b2, b3]);
  }

  lemma WordReads(x: u32)
    ensures Value(WordBytes(x)) == x
  {
    hide Value;
    FourDigits(x);
    ValueOfFour(x % 0x100, x / 0x100 % 0x100, x / 0x1_0000 % 0x100, x / 0x100_0000 % 0x100);
  }

  /** The digest is the four words in order, each with its low-order byte first. */
  lemma OutputReads(c: Chain)
    ensures var s := Output(c);
            Value(s[0..4]) == c.a && Value(s[4..8]) == c.b && Value(s[8..12]) == c.c && Value(s[12..16]) == c.d
  {
    hide Value, WordBytes, Words;
    OutputIs(c);
    var s := Output(c);
    assert s[0..4] == WordBytes(c.a) && s[4..8] == WordBytes(c.b) && s[8..12] == WordBytes(c.c) && s[12..16] == WordBytes(c.d);
    WordReads(c.a);
    WordReads(c.b);
    WordReads(c.c);
    WordReads(c.d);
  }

  lemma LastEight(front: seq<byte>, x: seq<byte>, y: seq<byte>)
    requires |x| == |y| == 4
    ensures var p := front + (x + y);
            p[|p| - 8..|p| - 4] == x && p[|p| - 4..] == y
  {
    var p, k := front + (x + y), |front|;
    assert |p| == k + 8;
    forall i | 0 <= i < 4
      ensures p[k..k + 4][i] == x[i] && p[k + 4..][i] == y[i]
    {
      assert p[k + i] == (x + y)[i] && p[k + 4 + i] == (x + y)[4 + i];
    }
  }

  lemma LengthReads(n: nat)
    ensures var b := LengthBytes(n);
            && Value(b[0..4]) == 8 * n % 0x1_0000_0000 && Value(b[4..8]) == 8 * n / 0x1_0000_0000 % 0x1_0000_0000
  {
    hide Value, WordBytes;
    var low, high := Wrap32(8 * n), Wrap32(8 * n / 0x1_0000_0000);
    assert [] + [low] == [low] && [low] + [high] == [low, high];
    WordsAppend([], low);
    WordsAppend([low], high);
    assert Words([]) == [] && [] + WordBytes(low) == WordBytes(low);
    var x, y := WordBytes(low), WordBytes(high);
    assert (x + y)[0..4] == x && (x + y)[4..8] == y;
    WordReads(low);
    WordReads(high);
  }

  /** What is hashed: the message, the byte 80, as few zeros as make the length a multiple of
      64, and the length in bits, as two words with the low-order one first. */
  lemma PaddedReads(msg: seq<byte>)
    ensures var p, n := Padded(msg), |msg|;
            && |p| % 64 == 0 && n + 9 <= |p| < n + 73
            && p[..n] == msg && p[n] == 0x80 && (forall i :: n < i < |p| - 8 ==> p[i] == 0)
            && Value(p[|p| - 8..|p| - 4]) == 8 * n % 0x1_0000_0000
            && Value(p[|p| - 4..]) == 8 * n / 0x1_0000_0000 % 0x1_0000_0000
  {
    hide Value, LengthBytes, BlockCount;
    var pad, length := Padding(PadLength(|msg|)), LengthBytes(|msg|);
    LengthReads(|msg|);
    PaddedParts(msg, pad, length);
    assert length == length[0..4] + length[4..8];
    LastEight(msg + pad, length[0..4], length[4..8]);
  }

  lemma PaddedParts(msg: seq<byte>, pad: seq<byte>, length: seq<byte>)
    requires pad != [] && |length| == 8
    ensures var p := msg + pad + length;
            p[..|msg|] == msg && p[|msg|] == pad[0] && forall i :: |msg| < i < |p| - 8 ==> p[i] == pad[i - |msg|]
  {
  }

  /** Blocks are folded in one after the other, the oldest first. */
  lemma FoldsInOrder(f: (Chain, seq<byte>) -> Chain, data: seq<byte>, block: seq<byte>, k: nat)
    requires |data| == 64 * k && |block| == 64
    ensures Fold(f, [], 0) == Chain(0x67452301, 0xefcdab89, 0x98badcfe, 0x10325476)
    ensures Fold(f, data + block, k + 1) == f(Fold(f, data, k), block)
  {
    FoldPrefix(f, data, block, k);
    assert (data + block)[64 * k..64 * (k + 1)] == block;
  }

  // -------------------------------------------------------------- the bit counter

  /** The two words of the counter after n bytes. */
  predicate Counts(low: u32, high: u32, n: nat) {
    low == Wrap32(8 * n) && high == Wrap32(8 * n / 0x1_0000_0000)
  }

  /** Adding len bytes: the carry out of the low word is seen by comparing the sum with
      what was added, and the bits of len above 2^29 go to the high word directly. */
  lemma CountStep(low: u32, high: u32, n: nat, len: u32)
    requires Counts(low, high, n)
    ensures var add := Wrap32(8 * len);
            var low1 := Wrap32(low + add);
            var high1 := if low1 < add then Wrap32(high + 1) else high;
            Counts(low1, Wrap32(high1 + len / 0x2000_0000), n + len)
  {
    var add, top := Wrap32(8 * len), len / 0x2000_0000;
    assert 8 * len == add + 0x1_0000_0000 * top;
    var h := 8 * n / 0x1_0000_0000;
    assert 8 * n == low + 0x1_0000_0000 * h;
    var low1 := Wrap32(low + add);
    var carry := if low1 < add then 1 else 0;
    assert low + add == low1 + 0x1_0000_0000 * carry;
    var total := h + top + carry;
    assert 8 * (n + len) == low1 + 0x1_0000_0000 * total;
    WrapShift(8 * (n + len), low1, total);
    CarryUp(h, high, carry, top);
  }

  lemma CarryUp(h: nat, high: u32, carry: nat, top: nat)
    requires high == Wrap32(h) && carry <= 1
    ensures Wrap32((if carry == 1 then Wrap32(high + 1) else high) + top) == Wrap32(h + top + carry)
  {
    var q := h / 0x1_0000_0000;
    var x := if carry == 1 then Wrap32(high + 1) else high;
    var r := (high + carry) / 0x1_0000_0000;
    assert x == high + carry - 0x1_0000_0000 * r;
    WrapShift(h + top + carry, x + top, q + r);
  }

  /** The position in the buffer, read off the low word. */
  lemma CountIndex(low: u32, high: u32, n: nat)
    requires Counts(low, high, n)
    ensures low / 8 % 64 == n % 64
  {
    var q := 8 * n / 0x1_0000_0000;
    var m := n - 0x2000_0000 * q;
    assert low == 8 * m;
    Modulo64(n, m, 0x80_0000 * q);
  }

  lemma Modulo64(n: nat, m: nat, k: nat)
    requires n == m + 64 * k
    ensures n % 64 == m % 64
  {
    assert n / 64 == m / 64 + k;
  }

  // ------------------------------------------------------------------ the context

  /** What MD5Update needs of its length argument: see LoopStops. */
  predicate LoopFits(absorbed: nat, len: nat) {
    absorbed % 64 == 0 || absorbed % 64 + len < 0x1_0000_0000
  }

  class Context {
    const f: (Chain, seq<byte>) -> Chain
    var state: Chain
    var countLow: u32
    var countHigh: u32
    const buffer: array<byte>

    /** Whole blocks of msg are folded in, the rest is buffered. */
    ghost predicate Holds(msg: seq<byte>)
      reads this`state, buffer
    {
      && buffer.Length == 64
      && state == Fold(f, msg, |msg| / 64)
      && buffer[..|msg| % 64] == msg[64 * (|msg| / 64)..]
    }

    /** The context has absorbed msg. */
    ghost predicate Absorbed(msg: seq<byte>)
      reads this, buffer
    {
      Holds(msg) && Counts(countLow, countHigh, |msg|)
    }

    /** MD5Init */
    constructor (f: (Chain, seq<byte>) -> Chain)
      ensures Absorbed([]) && fresh(buffer) && this.f == f
    {
      this.f := f;
      countLow, countHigh, state := 0, 0, INIT;
      buffer := new byte[64];
      new;
      assert Counts(0, 0, 0);
    }

    /** MD5_memcpy into the buffer. */
    method Store(at: nat, input: seq<byte>, from: nat, len: nat)
      requires buffer.Length == 64 && at + len <= 64 && from + len <= |input|
      modifies buffer
      ensures buffer[..at] == old(buffer[..at]) && buffer[at..at + len] == input[from..from + len]
    {
      for i := 0 to len
        invariant buffer[..at] == old(buffer[..at]) && buffer[at..at + i] == input[from..from + i]
      {
        buffer[at + i] := input[from + i];
        assert buffer[at..at + i] == input[from..from + i];
      }
    }

    /** The first statements of MD5Update. */
    method Count(len: u32, ghost n: nat)
      requires Counts(countLow, countHigh, n)
      modifies this`countLow, this`countHigh
      ensures Counts(countLow, countHigh, n + len)
    {
      CountStep(countLow, countHigh, n, len);
      countLow := Wrap32(countLow + Wrap32(8 * len));
      if countLow < Wrap32(8 * len) {
        countHigh := Wrap32(countHigh + 1);
      }
      countHigh := Wrap32(countHigh + len / 0x2000_0000);
    }

    /** The first block of MD5Update: the buffer, filled up with the head of the input. */
    method FillBlock(input: seq<byte>, index: nat, ghost msg: seq<byte>)
      requires Holds(msg) && index == |msg| % 64 && 64 - index <= |input|
      modifies this`state, buffer
      ensures state == Fold(f, msg + input, |msg| / 64 + 1)
    {
      ghost var all, k := msg + input, |msg| / 64;
      FoldPrefix(f, msg, input, k);
      Store(index, input, 0, 64 - index);
      JoinBlock(msg, input, buffer[..]);
      state := f(state, buffer[..]);
    }

    /** The whole blocks taken from the input itself; index + i stays a multiple of 64. */
    method WholeBlocks(input: seq<byte>, index: nat, ghost msg: seq<byte>) returns (i: nat)
      requires index == |msg| % 64 && 64 - index <= |input| && index + |input| < 0x1_0000_0000
      requires state == Fold(f, msg + input, |msg| / 64 + 1)
      modifies this`state
      ensures i <= |input| < i + 64 && (|msg| + i) % 64 == 0
      ensures state == Fold(f, msg + input, (|msg| + i) / 64)
    {
      i := 64 - index;
      ghost var k := |msg| / 64 + 1;
      while Wrap32(i + 63) < |input|
        invariant i <= |input| && |msg| + i == 64 * k
        invariant state == Fold(f, msg + input, k)
        decreases |input| - i
      {
        NoWrap(index, i, |input|, k - |msg| / 64);
        BlockInInput(msg, input, k, i);
        state := f(state, input[i..i + 64]);
        i, k := i + 64, k + 1;
      }
      NoWrap(index, i, |input|, k - |msg| / 64);
    }

    /** The part of MD5Update after the counter. */
    method Absorb(input: seq<byte>, index: nat, ghost msg: seq<byte>)
      requires Holds(msg) && index == |msg| % 64 && index + |input| < 0x1_0000_0000
      modifies this`state, buffer
      ensures Holds(msg + input)
    {
      if |input| >= 64 - index {
        FillBlock(input, index, msg);
        var i := WholeBlocks(input, index, msg);
        Store(0, input, i, |input| - i);
        TailOf(msg, input, i);
      } else {
        Store(index, input, 0, |input|);
        FoldPrefix(f, msg, input, |msg| / 64);
        StillShort(msg, input, buffer[..index + |input|]);
      }
    }

    /** MD5Update */
    method Update(input: seq<byte>, ghost msg: seq<byte>)
      requires Absorbed(msg) && |input| < 0x1_0000_0000 && LoopFits(|msg|, |input|)
      modifies this, buffer
      ensures Absorbed(msg + input)
    {
      CountIndex(countLow, countHigh, |msg|);
      hide Counts, Fold;
      var index := countLow / 8 % 64;
      Count(|input|, |msg|);
      Absorb(input, index, msg);
    }

    /** Encode */
    method Encode(input: seq<u32>) returns (output: seq<byte>)
      ensures output == Words(input)
    {
      output := [];
      assert input[..0] == [];
      for i := 0 to |input|
        invariant output == Words(input[..i])
      {
        var x := input[i];
        assert input[..i + 1][..i] == input[..i];
        output := output + [x % 0x100, x / 0x100 % 0x100, x / 0x1_0000 % 0x100, x / 0x100_0000 % 0x100];
      }
      assert input[..|input|] == input;
    }

    /** MD5Final: the digest of everything absorbed; the context is cleared. */
    method Final(ghost msg: seq<byte>) returns (digest: seq<byte>)
      requires Absorbed(msg)
      modifies this, buffer
      ensures digest == Digest(f, msg)
      ensures countLow == countHigh == 0 && state == Chain(0, 0, 0, 0) && buffer[..] == seq(64, i => 0)
    {
      hide Fold, WordBytes, BlockCount;
      CountIndex(countLow, countHigh, |msg|);
      var bits := Encode([countLow, countHigh]);
      var index := countLow / 8 % 64;
      var padLen := if index < 56 then 56 - index else 120 - index;
      PadLengthIs(|msg|);
      Update(Padding(padLen), msg);
      ghost var msg1 := msg + Padding(padLen);
      Update(bits, msg1);
      WholeMessage(msg, msg1 + bits);
      digest := Encode([state.a, state.b, state.c, state.d]);
      countLow, countHigh, state := 0, 0, Chain(0, 0, 0, 0);
      forall i | 0 <= i < 64 {
        buffer[i] := 0;
      }
    }
  }

  lemma PadLengthIs(n: nat)
    ensures PadLength(n) == if n % 64 < 56 then 56 - n % 64 else 120 - n % 64
  {
  }

  lemma WholeMessage(msg: seq<byte>, all: seq<byte>)
    requires all == msg + Padding(PadLength(|msg|)) + LengthBytes(|msg|)
    ensures all == Padded(msg) && |all| / 64 == BlockCount(|msg|)
  {
  }

  /** However the message is cut into pieces, the digest is that of the whole, as long as
      no piece meets the wrap of LoopStops; one of at most 2^32 - 64 bytes never does. */
  method HashPieces(f: (Chain, seq<byte>) -> Chain, pieces: seq<seq<byte>>) returns (digest: seq<byte>)
    requires forall i :: 0 <= i < |pieces| ==> |pieces[i]| < 0x1_0000_0000 && LoopFits(|Joined(pieces[..i])|, |pieces[i]|)
    ensures digest == Digest(f, Joined(pieces))
  {
    hide LoopFits, Context.Absorbed, Context.Holds, Digest, Fold, Counts, Padded, Output;
    var context := new Context(f);
    assert pieces[..0] == [];
    for i := 0 to |pieces|
      invariant context.Absorbed(Joined(pieces[..i])) && context.f == f && fresh(context) && fresh(context.buffer)
    {
      assert pieces[..i + 1][..i] == pieces[..i];
      context.Update(pieces[i], Joined(pieces[..i]));
    }
    assert pieces[..|pieces|] == pieces;
    digest := context.Final(Joined(pieces));
  }

  /** After whole blocks the rest of the input is less than a block. */
  lemma TailOf(msg: seq<byte>, input: seq<byte>, i: nat)
    requires i <= |input| < i + 64 && (|msg| + i) % 64 == 0
    ensures var all := msg + input;
            && |all| / 64 == (|msg| + i) / 64 && |all| % 64 == |input| - i
            && all[64 * (|all| / 64)..] == input[i..|input|]
  {
    var k, all := (|msg| + i) / 64, msg + input;
    assert |all| == 64 * k + (|input| - i);
  }

  /** An input that completes no block is added to what is buffered. */
  lemma StillShort(msg: seq<byte>, input: seq<byte>, buffered: seq<byte>)
    requires var index := |msg| % 64;
             && index + |input| < 64 && |buffered| == index + |input|
             && buffered[..index] == msg[64 * (|msg| / 64)..] && buffered[index..] == input
    ensures var all := msg + input;
            && |all| / 64 == |msg| / 64 && |all| % 64 == |msg| % 64 + |input|
            && buffered == all[64 * (|all| / 64)..]
  {
    var q, index, all := |msg| / 64, |msg| % 64, msg + input;
    assert |all| == 64 * q + (index + |input|);
    assert buffered == buffered[..index] + buffered[index..];
    assert all[64 * q..] == msg[64 * q..] + input;
  }

  /** The first block that is completed: what was buffered and the head of the input. */
  lemma JoinBlock(msg: seq<byte>, input: seq<byte>, block: seq<byte>)
    requires var index := |msg| % 64;
             && 64 - index <= |input| && |block| == 64
             && block[..index] == msg[64 * (|msg| / 64)..] && block[index..64] == input[0..64 - index]
    ensures block == (msg + input)[64 * (|msg| / 64)..64 * (|msg| / 64 + 1)]
  {
    var q, index := |msg| / 64, |msg| % 64;
    assert block == block[..index] + block[index..64];
    assert (msg + input)[64 * q..64 * (q + 1)] == msg[64 * q..] + input[0..64 - index];
  }

  /** A block after the first lies in the input. */
  lemma BlockInInput(msg: seq<byte>, input: seq<byte>, k: nat, i: nat)
    requires |msg| + i == 64 * k && i + 64 <= |input|
    ensures (msg + input)[64 * k..64 * (k + 1)] == input[i..i + 64]
  {
    var all, block := msg + input, input[i..i + 64];
    assert forall j :: 0 <= j < 64 ==> block[j] == all[64 * k..][j];
  }

  /** The 32-bit sum in the test of the loop does not wrap. */
  lemma NoWrap(index: nat, i: nat, len: nat, j: nat)
    requires index + i == 64 * j && i <= len && index + len < 0x1_0000_0000
    ensures Wrap32(i + 63) == i + 63
  {
  }

  /** After the last whole block the test of the loop fails, as it must, exactly when the
      buffered bytes and the input together are less than 2^32, or nothing was buffered. */
  lemma LoopStops(index: nat, len: nat, last: nat, j: nat)
    requires index < 64 && len < 0x1_0000_0000 && last <= len < last + 64 && index + last == 64 * j
    ensures !(Wrap32(last + 63) < len) <==> index == 0 || index + len < 0x1_0000_0000
  {
  }
}
