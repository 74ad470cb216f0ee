/** The division a CRC stands for, by the polynomial 0x1021, one bit at a time. */
module Division {

  /** One step of the division with a zero bit: the bit that leaves the remainder takes the
      polynomial x^16 + x^12 + x^5 + 1 with it. */
  function Step(c: bv16): bv16 {
    (c << 1) ^ (c >> 15) ^ ((c >> 15) << 5) ^ ((c >> 15) << 12)
  }

  lemma StepIsPolynomial(c: bv16)
    ensures Step(c) == if c & 0x8000 != 0 then (c << 1) ^ 0x1021 else c << 1
  {
    if c & 0x8000 != 0 {
      assert c >> 15 == 1;
    } else {
      assert c >> 15 == 0;
    }
  }

  function Two(c: bv16): bv16 {
    Step(Step(c))
  }

  function Four(c: bv16): bv16 {
    Two(Two(c))
  }

  function Eight(c: bv16): bv16 {
    Four(Four(c))
  }

  function Xor(a: bv16, b: bv16): bv16 {
    a ^ b
  }

  function Lead(bit: bv1): bv16 {
    (bit as bv16) << 15
  }

  /** The reference: each bit of the message joins the bit that leaves the remainder. */
  function Feed(c: bv16, bit: bv1): bv16 {
    Step(Xor(c, Lead(bit)))
  }

  function FeedAll(c: bv16, bits: seq<bv1>): bv16
    decreases |bits|
  {
    if bits == [] then c else FeedAll(Feed(c, bits[0]), bits[1..])
  }

  function First(b: bv8): bv1 {
    ((b >> 7) & 1) as bv1
  }

  /** The first n bits of a byte, the most significant first. */
  function BitsOf(b: bv8, n: nat): seq<bv1>
    decreases n
  {
    if n == 0 then [] else [First(b)] + BitsOf(b << 1, n - 1)
  }

  function Bits(data: seq<bv8>): seq<bv1> {
    if data == [] then [] else BitsOf(data[0], 8) + Bits(data[1..])
  }

  lemma StepOfSum(a: bv16, b: bv16)
    ensures Step(a ^ b) == Step(a) ^ Step(b)
  {
  }

  lemma StepLinear(a: bv16, b: bv16)
    ensures Step(Xor(a, b)) == Xor(Step(a), Step(b))
  {
    hide Step;
    StepOfSum(a, b);
  }

  lemma TwoLinear(a: bv16, b: bv16)
    ensures Two(Xor(a, b)) == Xor(Two(a), Two(b))
  {
    hide Xor, Step;
    StepLinear(a, b);
    StepLinear(Step(a), Step(b));
  }

  lemma FourLinear(a: bv16, b: bv16)
    ensures Four(Xor(a, b)) == Xor(Four(a), Four(b))
  {
    hide Xor, Two;
    TwoLinear(a, b);
    TwoLinear(Two(a), Two(b));
  }

  /** Eight steps of a sum are the sum of eight steps. */
  lemma EightLinear(a: bv16, b: bv16)
    ensures Eight(Xor(a, b)) == Xor(Eight(a), Eight(b))
  {
    hide Xor, Four;
    FourLinear(a, b);
    FourLinear(Four(a), Four(b));
  }

  /** No two remainders become the same. */
  lemma StepInjective(a: bv16, b: bv16)
    requires Step(a) == Step(b)
    ensures a == b
  {
  }

  lemma EightInjective(a: bv16, b: bv16)
    requires Eight(a) == Eight(b)
    ensures a == b
  {
    hide Step;
    if Four(a) != Four(b) {
      FourInjective(Four(a), Four(b));
    }
    FourInjective(a, b);
  }

  lemma FourInjective(a: bv16, b: bv16)
    requires Four(a) == Four(b)
    ensures a == b
  {
    TwoInjective(Two(a), Two(b));
    TwoInjective(a, b);
  }

  lemma TwoInjective(a: bv16, b: bv16)
    requires Two(a) == Two(b)
    ensures a == b
  {
    StepInjective(Step(a), Step(b));
    StepInjective(a, b);
  }

  function Wide(b: bv8): bv16 {
    (b as bv16) << 8
  }

  /** A byte b mixed in at the top of c; what is then in the top byte; and the rest. */
  function MixIn(c: bv16, b: bv8): bv16 {
    Xor(c, Wide(b))
  }

  function Top(c: bv16, b: bv8): bv16 {
    (((c >> 8) ^ (b as bv16)) & 0x00FF) << 8
  }

  function Low(c: bv16): bv16 {
    c & 0x00FF
  }

  function Up(c: bv16): bv16 {
    c << 8
  }

  lemma TopAndLow(c: bv16, w: bv16)
    requires w < 256
    ensures c ^ (w << 8) == ((((c >> 8) ^ w) & 0x00FF) << 8) ^ (c & 0x00FF)
  {
  }

  lemma MixInIs(c: bv16, b: bv8)
    ensures MixIn(c, b) == c ^ ((b as bv16) << 8) && (b as bv16) < 256
  {
  }

  lemma MixTop(c: bv16, b: bv8)
    ensures MixIn(c, b) == Xor(Top(c, b), Low(c))
  {
    MixInIs(c, b);
    hide MixIn;
    TopAndLow(c, b as bv16);
  }

  /** Eight steps only shift a remainder of one byte. */
  lemma LowByteShifts(c: bv16)
    ensures Eight(Low(c)) == Up(c)
  {
  }

  /** So eight steps on a mixed-in byte need only what they make of the top byte. */
  lemma MixedEight(c: bv16, b: bv8)
    ensures Eight(MixIn(c, b)) == Xor(Eight(Top(c, b)), Up(c))
  {
    hide Eight, Xor, Top, MixIn, Low, Up;
    MixTop(c, b);
    LowByteShifts(c);
    EightLinear(Top(c, b), Low(c));
  }

  lemma XorSwaps(x: bv16, y: bv16)
    ensures Xor(x, y) == Xor(y, x)
  {
  }

  lemma XorAssociates(x: bv16, y: bv16, z: bv16)
    ensures Xor(x, Xor(y, z)) == Xor(Xor(x, y), z)
  {
  }

  function Steps(c: bv16, n: nat): bv16
    decreases n
  {
    if n == 0 then c else Steps(Step(c), n - 1)
  }

  function Shifted(b: bv8, n: nat): bv8
    decreases n
  {
    if n == 0 then b else Shifted(b << 1, n - 1)
  }

  function Rest(b: bv8): bv16 {
    ((b & 0x7F) as bv16) << 8
  }

  lemma SplitByte(b: bv8)
    ensures Wide(b) == Xor(Lead(First(b)), Rest(b)) && Step(Rest(b)) == Wide(b << 1)
  {
  }

  /** One step on a mixed-in byte feeds its first bit and leaves the others mixed in. */
  lemma FeedOne(c: bv16, b: bv8)
    ensures Step(MixIn(c, b)) == MixIn(Feed(c, First(b)), b << 1)
  {
    hide Xor, Step, Wide, Lead, First, Rest;
    SplitByte(b);
    XorAssociates(c, Lead(First(b)), Rest(b));
    StepLinear(Xor(c, Lead(First(b))), Rest(b));
  }

  lemma {:induction false} FeedMany(c: bv16, b: bv8, n: nat)
    ensures Steps(MixIn(c, b), n) == MixIn(FeedAll(c, BitsOf(b, n)), Shifted(b, n))
    decreases n
  {
    hide MixIn, Step, Feed, First;
    if n > 0 {
      FeedOne(c, b);
      FeedMany(Feed(c, First(b)), b << 1, n - 1);
      assert ([First(b)] + BitsOf(b << 1, n - 1))[1..] == BitsOf(b << 1, n - 1);
    }
  }

  lemma {:induction false} StepsAdd(c: bv16, m: nat, n: nat)
    ensures Steps(c, m + n) == Steps(Steps(c, m), n)
    decreases m
  {
    hide Step;
    if m > 0 {
      StepsAdd(Step(c), m - 1, n);
    }
  }

  lemma FourSteps(c: bv16)
    ensures Steps(c, 4) == Four(c)
  {
    hide Step;
    StepsAdd(c, 2, 2);
    assert Steps(c, 2) == Two(c);
    assert Steps(Two(c), 2) == Two(Two(c));
  }

  lemma EightSteps(c: bv16)
    ensures Steps(c, 8) == Eight(c)
  {
    hide Step;
    FourSteps(c);
    FourSteps(Four(c));
    StepsAdd(c, 4, 4);
  }

  lemma {:induction false} ShiftedAdd(b: bv8, m: nat, n: nat)
    ensures Shifted(b, m + n) == Shifted(Shifted(b, m), n)
    decreases m
  {
    if m > 0 {
      ShiftedAdd(b << 1, m - 1, n);
    }
  }

  lemma ShiftedTwo(b: bv8)
    ensures Shifted(b, 2) == b << 2
  {
    assert (b << 1) << 1 == b << 2;
  }

  lemma ShiftedOut(b: bv8)
    ensures Shifted(b, 8) == 0
  {
    ShiftedAdd(b, 2, 6);
    ShiftedAdd(b << 2, 2, 4);
    ShiftedAdd((b << 2) << 2, 2, 2);
    ShiftedTwo(b);
    ShiftedTwo(b << 2);
    ShiftedTwo((b << 2) << 2);
    ShiftedTwo(((b << 2) << 2) << 2);
  }

  lemma MixNothing(c: bv16)
    ensures MixIn(c, 0) == c
  {
  }

  /** Feeding the eight bits of a byte is mixing the byte in at the top and eight steps. */
  lemma FeedByte(c: bv16, b: bv8)
    ensures FeedAll(c, BitsOf(b, 8)) == Eight(MixIn(c, b))
  {
    hide MixIn, Eight, Steps, BitsOf, FeedAll, Shifted;
    FeedMany(c, b, 8);
    EightSteps(MixIn(c, b));
    ShiftedOut(b);
    MixNothing(FeedAll(c, BitsOf(b, 8)));
  }

  lemma {:induction false} FeedAppend(c: bv16, x: seq<bv1>, y: seq<bv1>)
    ensures FeedAll(c, x + y) == FeedAll(FeedAll(c, x), y)
    decreases |x|
  {
    hide Feed;
    if x == [] {
      assert x + y == y;
    } else {
      assert (x + y)[1..] == x[1..] + y;
      FeedAppend(Feed(c, x[0]), x[1..], y);
    }
  }
}

/** The table-driven CRC of comm_api.c. */
module Crc16 {
  import opened Division

  // The 256 entries of g_usCrc16tab, 16 to a row.
  function Row0(): (r: seq<bv16>)
    ensures |r| == 16
  {
    [0x0000, 0x1021, 0x2042, 0x3063, 0x4084, 0x50A5, 0x60C6, 0x70E7, 0x8108, 0x9129, 0xA14A, 0xB16B, 0xC18C, 0xD1AD, 0xE1CE, 0xF1EF]
  }

  function Row1(): (r: seq<bv16>)
    ensures |r| == 16
  {
    [0x1231, 0x0210, 0x3273, 0x2252, 0x52B5, 0x4294, 0x72F7, 0x62D6, 0x9339, 0x8318, 0xB37B, 0xA35A, 0xD3BD, 0xC39C, 0xF3FF, 0xE3DE]
  }

  function Row2(): (r: seq<bv16>)
    ensures |r| == 16
  {
    [0x2462, 0x3443, 0x0420, 0x1401, 0x64E6, 0x74C7, 0x44A4, 0x5485, 0xA56A, 0xB54B, 0x8528, 0x9509, 0xE5EE, 0xF5CF, 0xC5AC, 0xD58D]
  }

  function Row3(): (r: seq<bv16>)
    ensures |r| == 16
  {
    [0x3653, 0x2672, 0x1611, 0x0630, 0x76D7, 0x66F6, 0x5695, 0x46B4, 0xB75B, 0xA77A, 0x9719, 0x8738, 0xF7DF, 0xE7FE, 0xD79D, 0xC7BC]
  }

  function Row4(): (r: seq<bv16>)
    ensures |r| == 16
  {
    [0x48C4, 0x58E5, 0x6886, 0x78A7, 0x0840, 0x1861, 0x2802, 0x3823, 0xC9CC, 0xD9ED, 0xE98E, 0xF9AF, 0x8948, 0x9969, 0xA90A, 0xB92B]
  }

  function Row5(): (r: seq<bv16>)
    ensures |r| == 16
  {
    [0x5AF5, 0x4AD4, 0x7AB7, 0x6A96, 0x1A71, 0x0A50, 0x3A33, 0x2A12, 0xDBFD, 0xCBDC, 0xFBBF, 0xEB9E, 0x9B79, 0x8B58, 0xBB3B, 0xAB1A]
  }

  function Row6(): (r: seq<bv16>)
    ensures |r| == 16
  {
    [0x6CA6, 0x7C87, 0x4CE4, 0x5CC5, 0x2C22, 0x3C03, 0x0C60, 0x1C41, 0xEDAE, 0xFD8F, 0xCDEC, 0xDDCD, 0xAD2A, 0xBD0B, 0x8D68, 0x9D49]
  }

  function Row7(): (r: seq<bv16>)
    ensures |r| == 16
  {
    [0x7E97, 0x6EB6, 0x5ED5, 0x4EF4, 0x3E13, 0x2E32, 0x1E51, 0x0E70, 0xFF9F, 0xEFBE, 0xDFDD, 0xCFFC, 0xBF1B, 0xAF3A, 0x9F59, 0x8F78]
  }

  function Row8(): (r: seq<bv16>)
    ensures |r| == 16
  {
    [0x9188, 0x81A9, 0xB1CA, 0xA1EB, 0xD10C, 0xC12D, 0xF14E, 0xE16F, 0x1080, 0x00A1, 0x30C2, 0x20E3, 0x5004, 0x4025, 0x7046, 0x6067]
  }

  function Row9(): (r: seq<bv16>)
    ensures |r| == 16
  {
    [0x83B9, 0x9398, 0xA3FB, 0xB3DA, 0xC33D, 0xD31C, 0xE37F, 0xF35E, 0x02B1, 0x1290, 0x22F3, 0x32D2, 0x4235, 0x5214, 0x6277, 0x7256]
  }

  function Row10(): (r: seq<bv16>)
    ensures |r| == 16
  {
    [0xB5EA, 0xA5CB, 0x95A8, 0x8589, 0xF56E, 0xE54F, 0xD52C, 0xC50D, 0x34E2, 0x24C3, 0x14A0, 0x0481, 0x7466, 0x6447, 0x5424, 0x4405]
  }

  function Row11(): (r: seq<bv16>)
    ensures |r| == 16
  {
    [0xA7DB, 0xB7FA, 0x8799, 0x97B8, 0xE75F, 0xF77E, 0xC71D, 0xD73C, 0x26D3, 0x36F2, 0x0691, 0x16B0, 0x6657, 0x7676, 0x4615, 0x5634]
  }

  function Row12(): (r: seq<bv16>)
    ensures |r| == 16
  {
    [0xD94C, 0xC96D, 0xF90E, 0xE92F, 0x99C8, 0x89E9, 0xB98A, 0xA9AB, 0x5844, 0x4865, 0x7806, 0x6827, 0x18C0, 0x08E1, 0x3882, 0x28A3]
  }

  function Row13(): (r: seq<bv16>)
    ensures |r| == 16
  {
    [0xCB7D, 0xDB5C, 0xEB3F, 0xFB1E, 0x8BF9, 0x9BD8, 0xABBB, 0xBB9A, 0x4A75, 0x5A54, 0x6A37, 0x7A16, 0x0AF1, 0x1AD0, 0x2AB3, 0x3A92]
  }

  function Row14(): (r: seq<bv16>)
    ensures |r| == 16
  {
    [0xFD2E, 0xED0F, 0xDD6C, 0xCD4D, 0xBDAA, 0xAD8B, 0x9DE8, 0x8DC9, 0x7C26, 0x6C07, 0x5C64, 0x4C45, 0x3CA2, 0x2C83, 0x1CE0, 0x0CC1]
  }

  function Row15(): (r: seq<bv16>)
    ensures |r| == 16
  {
    [0xEF1F, 0xFF3E, 0xCF5D, 0xDF7C, 0xAF9B, 0xBFBA, 0x8FD9, 0x9FF8, 0x6E17, 0x7E36, 0x4E55, 0x5E74, 0x2E93, 0x3EB2, 0x0ED1, 0x1EF0]
  }


  /** A table index, where the division has it: in the top byte. */
  function Index(i: nat): bv16
    requires i < 256
  {
    (i as bv16) << 8
  }

  lemma IndexBack(x: bv16)
    requires x < 256
    ensures (x as nat) < 256 && Index(x as nat) == x << 8
  {
    assert (x as nat) < 256;
    assert (x as nat) as bv16 == x;
  }

  function Row(k: nat): (r: seq<bv16>)
    requires k < 16
    ensures |r| == 16
  {
    if k < 8 then
      if k < 4 then if k < 2 then if k == 0 then Row0() else Row1() else if k == 2 then Row2() else Row3()
      else if k < 6 then if k == 4 then Row4() else Row5() else if k == 6 then Row6() else Row7()
    else
      if k < 12 then if k < 10 then if k == 8 then Row8() else Row9() else if k == 10 then Row10() else Row11()
      else if k < 14 then if k == 12 then Row12() else Row13() else if k == 14 then Row14() else Row15()
  }

  function Entry(i: nat): bv16
    requires i < 256
  {
    Row(i / 16)[i % 16]
  }

  /** The table index the loop uses. */
  function Slot(c: bv16, b: bv8): (i: nat)
    ensures i < 256
  {
    (((c >> 8) ^ (b as bv16)) & 0x00FF) as nat
  }

  /** The statement of the loop of COMM_API_CalculateCRC16. */
  function Turn(c: bv16, b: bv8): bv16 {
    Xor(Up(c), Entry(Slot(c, b)))
  }

  /** The loop of COMM_API_CalculateCRC16 from remainder c on. */
  function Crc(c: bv16, data: seq<bv8>): bv16
    decreases |data|
  {
    if data == [] then c else Crc(Turn(c, data[0]), data[1..])
  }

  // ---------------------------------------------------------------- the table

  lemma Row0Is(i: nat)
    requires i < 16
    ensures Row0()[i] == Eight(Index(16 * 0 + i))
  {
    if i < 8 {
      if i < 4 { if i < 2 {} else {} } else { if i < 6 {} else {} }
    } else {
      if i < 12 { if i < 10 {} else {} } else { if i < 14 {} else {} }
    }
  }

  lemma Row1Is(i: nat)
    requires i < 16
    ensures Row1()[i] == Eight(Index(16 * 1 + i))
  {
    if i < 8 {
      if i < 4 { if i < 2 {} else {} } else { if i < 6 {} else {} }
    } else {
      if i < 12 { if i < 10 {} else {} } else { if i < 14 {} else {} }
    }
  }

  lemma Row2Is(i: nat)
    requires i < 16
    ensures Row2()[i] == Eight(Index(16 * 2 + i))
  {
    if i < 8 {
      if i < 4 { if i < 2 {} else {} } else { if i < 6 {} else {} }
    } else {
      if i < 12 { if i < 10 {} else {} } else { if i < 14 {} else {} }
    }
  }

  lemma Row3Is(i: nat)
    requires i < 16
    ensures Row3()[i] == Eight(Index(16 * 3 + i))
  {
    if i < 8 {
      if i < 4 { if i < 2 {} else {} } else { if i < 6 {} else {} }
    } else {
      if i < 12 { if i < 10 {} else {} } else { if i < 14 {} else {} }
    }
  }

  lemma Row4Is(i: nat)
    requires i < 16
    ensures Row4()[i] == Eight(Index(16 * 4 + i))
  {
    if i < 8 {
      if i < 4 { if i < 2 {} else {} } else { if i < 6 {} else {} }
    } else {
      if i < 12 { if i < 10 {} else {} } else { if i < 14 {} else {} }
    }
  }

  lemma Row5Is(i: nat)
    requires i < 16
    ensures Row5()[i] == Eight(Index(16 * 5 + i))
  {
    if i < 8 {
      if i < 4 { if i < 2 {} else {} } else { if i < 6 {} else {} }
    } else {
      if i < 12 { if i < 10 {} else {} } else { if i < 14 {} else {} }
    }
  }

  lemma Row6Is(i: nat)
    requires i < 16
    ensures Row6()[i] == Eight(Index(16 * 6 + i))
  {
    if i < 8 {
      if i < 4 { if i < 2 {} else {} } else { if i < 6 {} else {} }
    } else {
      if i < 12 { if i < 10 {} else {} } else { if i < 14 {} else {} }
    }
  }

  lemma Row7Is(i: nat)
    requires i < 16
    ensures Row7()[i] == Eight(Index(16 * 7 + i))
  {
    if i < 8 {
      if i < 4 { if i < 2 {} else {} } else { if i < 6 {} else {} }
    } else {
      if i < 12 { if i < 10 {} else {} } else { if i < 14 {} else {} }
    }
  }

  lemma Row8Is(i: nat)
    requires i < 16
    ensures Row8()[i] == Eight(Index(16 * 8 + i))
  {
    if i < 8 {
      if i < 4 { if i < 2 {} else {} } else { if i < 6 {} else {} }
    } else {
      if i < 12 { if i < 10 {} else {} } else { if i < 14 {} else {} }
    }
  }

  lemma Row9Is(i: nat)
    requires i < 16
    ensures Row9()[i] == Eight(Index(16 * 9 + i))
  {
    if i < 8 {
      if i < 4 { if i < 2 {} else {} } else { if i < 6 {} else {} }
    } else {
      if i < 12 { if i < 10 {} else {} } else { if i < 14 {} else {} }
    }
  }

  lemma Row10Is(i: nat)
    requires i < 16
    ensures Row10()[i] == Eight(Index(16 * 10 + i))
  {
    if i < 8 {
      if i < 4 { if i < 2 {} else {} } else { if i < 6 {} else {} }
    } else {
      if i < 12 { if i < 10 {} else {} } else { if i < 14 {} else {} }
    }
  }

  lemma Row11Is(i: nat)
    requires i < 16
    ensures Row11()[i] == Eight(Index(16 * 11 + i))
  {
    if i < 8 {
      if i < 4 { if i < 2 {} else {} } else { if i < 6 {} else {} }
    } else {
      if i < 12 { if i < 10 {} else {} } else { if i < 14 {} else {} }
    }
  }

  lemma Row12Is(i: nat)
    requires i < 16
    ensures Row12()[i] == Eight(Index(16 * 12 + i))
  {
    if i < 8 {
      if i < 4 { if i < 2 {} else {} } else { if i < 6 {} else {} }
    } else {
      if i < 12 { if i < 10 {} else {} } else { if i < 14 {} else {} }
    }
  }

  lemma Row13Is(i: nat)
    requires i < 16
    ensures Row13()[i] == Eight(Index(16 * 13 + i))
  {
    if i < 8 {
      if i < 4 { if i < 2 {} else {} } else { if i < 6 {} else {} }
    } else {
      if i < 12 { if i < 10 {} else {} } else { if i < 14 {} else {} }
    }
  }

  lemma Row14Is(i: nat)
    requires i < 16
    ensures Row14()[i] == Eight(Index(16 * 14 + i))
  {
    if i < 8 {
      if i < 4 { if i < 2 {} else {} } else { if i < 6 {} else {} }
    } else {
      if i < 12 { if i < 10 {} else {} } else { if i < 14 {} else {} }
    }
  }

  lemma Row15Is(i: nat)
    requires i < 16
    ensures Row15()[i] == Eight(Index(16 * 15 + i))
  {
    if i < 8 {
      if i < 4 { if i < 2 {} else {} } else { if i < 6 {} else {} }
    } else {
      if i < 12 { if i < 10 {} else {} } else { if i < 14 {} else {} }
    }
  }

  lemma RowIs(k: nat, j: nat)
    requires k < 16 && j < 16
    ensures Row(k)[j] == Eight(Index(16 * k + j))
  {
    hide Index, Eight, Row0, Row1, Row2, Row3, Row4, Row5, Row6, Row7, Row8, Row9, Row10, Row11, Row12, Row13, Row14, Row15;
    if k < 8 {
      if k < 4 {
        if k < 2 {
          if k < 1 {
            Row0Is(j);
          } else {
            Row1Is(j);
          }
        } else {
          if k < 3 {
            Row2Is(j);
          } else {
            Row3Is(j);
          }
        }
      } else {
        if k < 6 {
          if k < 5 {
            Row4Is(j);
          } else {
            Row5Is(j);
          }
        } else {
          if k < 7 {
            Row6Is(j);
          } else {
            Row7Is(j);
          }
        }
      }
    } else {
      if k < 12 {
        if k < 10 {
          if k < 9 {
            Row8Is(j);
          } else {
            Row9Is(j);
          }
        } else {
          if k < 11 {
            Row10Is(j);
          } else {
            Row11Is(j);
          }
        }
      } else {
        if k < 14 {
          if k < 13 {
            Row12Is(j);
          } else {
            Row13Is(j);
          }
        } else {
          if k < 15 {
            Row14Is(j);
          } else {
            Row15Is(j);
          }
        }
      }
    }
  }

  /** Every entry is what eight steps make of its index. */
  lemma EntryIs(i: nat)
    requires i < 256
    ensures Entry(i) == Eight(Index(i))
  {
    hide Index, Eight, Row;
    RowIs(i / 16, i % 16);
  }

  lemma SlotIs(c: bv16, b: bv8)
    ensures Index(Slot(c, b)) == Top(c, b)
  {
    TopByte(c, b as bv16);
    IndexBack(((c >> 8) ^ (b as bv16)) & 0x00FF);
    hide Index;
  }

  lemma TopByte(c: bv16, w: bv16)
    ensures ((c >> 8) ^ w) & 0x00FF < 256
  {
  }

  /** One turn of the loop is eight steps of the division on the byte mixed in at the top. */
  lemma TurnIsEight(c: bv16, b: bv8)
    ensures Turn(c, b) == Eight(MixIn(c, b))
  {
    hide Eight, Entry, Index, Slot, Top, MixIn, Xor, Up;
    SlotIs(c, b);
    EntryIs(Slot(c, b));
    XorSwaps(Up(c), Entry(Slot(c, b)));
    MixedEight(c, b);
  }

  // -------------------------------------------------------------- the whole buffer

  lemma TurnFeedsByte(c: bv16, b: bv8)
    ensures Turn(c, b) == FeedAll(c, BitsOf(b, 8))
  {
    hide Turn, FeedAll, BitsOf, Eight, MixIn;
    TurnIsEight(c, b);
    FeedByte(c, b);
  }

  /** The table-driven CRC is the bit-by-bit division, on every buffer. */
  lemma {:induction false} CrcIsDivision(c: bv16, data: seq<bv8>)
    ensures Crc(c, data) == FeedAll(c, Bits(data))
    decreases |data|
  {
    hide Turn, BitsOf, Feed;
    if data != [] {
      TurnFeedsByte(c, data[0]);
      CrcIsDivision(Turn(c, data[0]), data[1..]);
      FeedAppend(c, BitsOf(data[0], 8), Bits(data[1..]));
    }
  }

  /** COMM_API_CalculateCRC16 */
  method CalculateCRC16(buf: array<bv8>, len: nat) returns (crc: bv16)
    requires len <= buf.Length
    ensures crc == FeedAll(0, Bits(buf[..len]))
  {
    hide Turn, Feed, BitsOf;
    crc := 0;
    var i := 0;
    assert buf[0..len] == buf[..len];
    while i < len
      invariant i <= len && Crc(crc, buf[i..len]) == Crc(0, buf[..len])
    {
      assert buf[i..len][1..] == buf[i + 1..len];
      crc := Turn(crc, buf[i]);
      i := i + 1;
    }
    CrcIsDivision(0, buf[..len]);
  }

  lemma {:induction false} CrcAppend(c: bv16, x: seq<bv8>, y: seq<bv8>)
    ensures Crc(c, x + y) == Crc(Crc(c, x), y)
    decreases |x|
  {
    hide Turn;
    if x == [] {
      assert x + y == y;
    } else {
      assert (x + y)[1..] == x[1..] + y;
      CrcAppend(Turn(c, x[0]), x[1..], y);
    }
  }

  lemma TurnInjective(c: bv16, d: bv16, b: bv8)
    requires Turn(c, b) == Turn(d, b)
    ensures c == d
  {
    TurnIsEight(c, b);
    TurnIsEight(d, b);
    hide Turn, Eight;
    EightInjective(MixIn(c, b), MixIn(d, b));
  }

  lemma {:induction false} CrcInjective(c: bv16, d: bv16, data: seq<bv8>)
    requires Crc(c, data) == Crc(d, data)
    ensures c == d
    decreases |data|
  {
    hide Turn;
    if data != [] {
      CrcInjective(Turn(c, data[0]), Turn(d, data[0]), data[1..]);
      TurnInjective(c, d, data[0]);
    }
  }

  function HighByte(c: bv16): bv8 {
    (c >> 8) as bv8
  }

  function LowByte(c: bv16): bv8 {
    (c & 0x00FF) as bv8
  }

  lemma OwnBytesGiveZero(c: bv16)
    ensures Turn(Turn(c, HighByte(c)), LowByte(c)) == 0
  {
    assert Slot(c, HighByte(c)) == 0;
    EntryIs(0);
    assert Turn(c, HighByte(c)) == c << 8;
  }

  /** The low byte of a table entry tells which entry it is. */
  lemma LowTells(d: bv16)
    requires Low(d) == 0 && Low(Eight(d)) == 0
    ensures d == 0
  {
  }

  lemma LowOfSum(x: bv16, y: bv16)
    ensures Low(Xor(x, y)) == Xor(Low(x), Low(y))
  {
  }

  lemma SumTwice(x: bv16, y: bv16)
    ensures Xor(Xor(x, y), y) == x && Xor(y, y) == 0 && Xor(0, y) == y
  {
  }

  lemma SumOfEqual(x: bv16, y: bv16)
    ensures Xor(x, y) == 0 <==> x == y
  {
    SumTwice(x, y);
    hide Xor;
  }

  lemma LowMixed(c: bv16, b: bv8)
    ensures Low(MixIn(c, b)) == Low(c) && Low(Top(c, b)) == 0 && Low(Up(c)) == 0
  {
  }

  lemma MixTells(c: bv16, x: bv8, y: bv8)
    ensures MixIn(c, x) == MixIn(c, y) ==> x == y
    ensures Top(c, x) == Top(c, y) ==> x == y
  {
  }

  lemma SumWithZero(x: bv16)
    ensures Xor(x, 0) == x
  {
  }

  /** The low byte of the remainder after one byte tells the byte. */
  lemma LowTellsByte(c: bv16, x: bv8, u: bv8)
    requires Low(Eight(MixIn(c, x))) == Low(Eight(MixIn(c, u)))
    ensures x == u
  {
    hide Eight, MixIn, Top, Up, Low, Xor;
    forall b: bv8
      ensures Low(Eight(MixIn(c, b))) == Low(Eight(Top(c, b))) && Low(Top(c, b)) == 0
    {
      MixedEight(c, b);
      LowOfSum(Eight(Top(c, b)), Up(c));
      LowMixed(c, b);
      SumWithZero(Low(Eight(Top(c, b))));
    }
    var p, q := Top(c, x), Top(c, u);
    EightLinear(p, q);
    LowOfSum(Eight(p), Eight(q));
    LowOfSum(p, q);
    SumOfEqual(Low(Eight(p)), Low(Eight(q)));
    SumWithZero(0);
    LowTells(Xor(p, q));
    SumOfEqual(p, q);
    MixTells(c, x, u);
  }

  /** From one remainder, two different pairs of bytes never lead to the same one. */
  lemma PairInjective(c: bv16, x: bv8, y: bv8, u: bv8, v: bv8)
    requires Turn(Turn(c, x), y) == Turn(Turn(c, u), v)
    ensures x == u && y == v
  {
    hide Eight, MixIn, Turn, Low;
    var p, q := Turn(c, x), Turn(c, u);
    TurnIsEight(p, y);
    TurnIsEight(q, v);
    EightInjective(MixIn(p, y), MixIn(q, v));
    LowMixed(p, y);
    LowMixed(q, v);
    TurnIsEight(c, x);
    TurnIsEight(c, u);
    LowTellsByte(c, x, u);
    MixTells(p, y, v);
  }

  /** Appending two bytes gives the CRC 0 exactly when they are the two bytes of the CRC,
      the high one first. */
  lemma OnlyOwnBytesGiveZero(data: seq<bv8>, x: bv8, y: bv8)
    ensures Crc(0, data + [x, y]) == 0 <==> x == HighByte(Crc(0, data)) && y == LowByte(Crc(0, data))
  {
    var c := Crc(0, data);
    CrcAppend(0, data, [x, y]);
    CrcOfPair(c, x, y);
    hide Turn, HighByte, LowByte;
    OwnBytesGiveZero(c);
    if Turn(Turn(c, x), y) == 0 {
      PairInjective(c, x, y, HighByte(c), LowByte(c));
    }
  }

  lemma CrcOfPair(c: bv16, x: bv8, y: bv8)
    ensures Crc(c, [x, y]) == Turn(Turn(c, x), y)
  {
    hide Turn;
    assert [x, y][1..] == [y];
    assert Crc(Turn(c, x), [y]) == Turn(Turn(c, x), y);
  }

  /** Messages that differ in two neighbouring bytes and nowhere else have different CRCs. */
  lemma NeighboursDetected(front: seq<bv8>, x: bv8, y: bv8, u: bv8, v: bv8, back: seq<bv8>)
    requires Crc(0, front + [x, y] + back) == Crc(0, front + [u, v] + back)
    ensures x == u && y == v
  {
    var c := Crc(0, front);
    CrcAppend(0, front + [x, y], back);
    CrcAppend(0, front + [u, v], back);
    CrcAppend(0, front, [x, y]);
    CrcAppend(0, front, [u, v]);
    hide Turn;
    CrcOfPair(c, x, y);
    CrcOfPair(c, u, v);
    CrcInjective(Turn(Turn(c, x), y), Turn(Turn(c, u), v), back);
    PairInjective(c, x, y, u, v);
  }
}
