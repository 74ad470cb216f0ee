/** Unsigned 32-bit arithmetic and the serial-number comparison of ikcp.c.

    Sequence numbers and times are handled in one of three modes.  In `Wrapping`
    mode both live modulo 2^32 and are compared with `TimeDiff`: that is what the
    C code does.  In `Exact` mode sequence numbers never wrap, and times do: that is
    the machine the protocol theorems are about.  In `Ideal` mode neither wraps.
    Every operation of the model takes the mode as a parameter, so each is defined
    once. */
module Serial {

  type byte = x: int | 0 <= x < 0x100
  type u16 = x: int | 0 <= x < 0x1_0000
  type u32 = x: int | 0 <= x < 0x1_0000_0000

  const HALF: int := 0x8000_0000

  /** The value an unsigned 32-bit variable holds after being assigned x. */
  function Wrap32(x: int): u32 {
    x % 0x1_0000_0000
  }

  function Wrap16(x: int): u16 {
    x % 0x1_0000
  }

  /** The cast (IINT32) of an unsigned 32-bit value. */
  function Signed32(x: u32): int {
    if x < 0x8000_0000 then x else x - 0x1_0000_0000
  }

  /** What a signed 32-bit variable holds after being assigned x. */
  function Int32(x: int): int {
    Signed32(Wrap32(x))
  }

  /** C's x / d on a signed value. */
  function TruncDiv(x: int, d: nat): int
    requires d > 0
  {
    if x >= 0 then x / d else -((-x) / d)
  }

  /** _itimediff: the signed distance from earlier to later. */
  function TimeDiff(later: int, earlier: int): (d: int)
    ensures -0x8000_0000 <= d < 0x8000_0000
  {
    Signed32(Wrap32(later - earlier))
  }

  function Min(a: int, b: int): int {
    if a <= b then a else b
  }

  function Max(a: int, b: int): int {
    if a >= b then a else b
  }

  /** _ibound_ */
  function Bound(lower: int, middle: int, upper: int): int {
    Min(Max(lower, middle), upper)
  }

  datatype Mode = Ideal | Exact | Wrapping

  /** later - earlier, for two sequence numbers, as the given machine computes it. */
  function Diff(m: Mode, later: int, earlier: int): int {
    if m.Wrapping? then TimeDiff(later, earlier) else later - earlier
  }

  /** What the given machine stores for the sequence number x. */
  function Norm(m: Mode, x: int): int {
    if m.Wrapping? then Wrap32(x) else x
  }

  /** The time from earlier to later, as the given machine computes it. */
  function Since(m: Mode, later: int, earlier: int): int {
    if m.Ideal? then later - earlier else TimeDiff(later, earlier)
  }

  /** What the given machine stores for the time t. */
  function Clocked(m: Mode, t: int): int {
    if m.Ideal? then t else Wrap32(t)
  }

  /** The unbounded number nearest to reference whose low 32 bits are those of x. */
  function Lift(x: int, reference: int): (y: int)
    ensures -0x8000_0000 <= y - reference < 0x8000_0000
    ensures Wrap32(y) == Wrap32(x)
  {
    reference + TimeDiff(x, reference)
  }

  lemma WrapsNot(x: int)
    requires 0 <= x < 0x1_0000_0000
    ensures Wrap32(x) == x
  {
  }

  /** Wrapping forgets multiples of 2^32 and nothing else. */
  lemma WrapShift(x: int, y: int, k: int)
    requires x == y + k * 0x1_0000_0000
    ensures Wrap32(x) == Wrap32(y)
  {
    var qx, qy := x / 0x1_0000_0000, y / 0x1_0000_0000;
    assert (qx - qy - k) * 0x1_0000_0000 == Wrap32(y) - Wrap32(x);
  }

  lemma TimeDiffWraps(a: int, b: int)
    ensures TimeDiff(Wrap32(a), Wrap32(b)) == TimeDiff(a, b)
  {
    WrapShift(a - b, Wrap32(a) - Wrap32(b), a / 0x1_0000_0000 - b / 0x1_0000_0000);
  }

  /** Comparing wrapped numbers gives the true distance exactly when that
      distance is below 2^31. */
  lemma TimeDiffExact(a: int, b: int)
    ensures TimeDiff(Wrap32(a), Wrap32(b)) == a - b <==> -0x8000_0000 <= a - b < 0x8000_0000
  {
    TimeDiffWraps(a, b);
  }

  lemma LiftU32(x: int, reference: int)
    requires 0 <= x < 0x1_0000_0000
    ensures Wrap32(Lift(x, reference)) == x
  {
  }

  /** A number that is close to the reference is the one Lift recovers. */
  lemma LiftUnique(x: int, reference: int)
    requires -0x8000_0000 <= x - reference < 0x8000_0000
    ensures Lift(Wrap32(x), reference) == x
  {
    var d := x - reference;
    WrapShift(Wrap32(x) - reference, d, -(x / 0x1_0000_0000));
    SmallDiff(d);
  }

  lemma SmallDiff(d: int)
    requires -0x8000_0000 <= d < 0x8000_0000
    ensures Signed32(Wrap32(d)) == d
  {
    if d < 0 {
      WrapShift(d + 0x1_0000_0000, d, 1);
    }
  }
}
