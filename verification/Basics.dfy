/** What several modules need and none of them is about. */
module Basics {
  import opened Serial

  lemma MulMono(a: int, b: int, n: int)
    requires a <= b && n >= 0
    ensures a * n <= b * n
  {
  }

  /** The number whose digits to the base 256 are b, the lowest first. */
  function Value(b: seq<byte>): (x: nat) {
    if b == [] then 0 else b[0] + 0x100 * Value(b[1..])
  }

  /** The parts in a row. */
  function Joined<T>(parts: seq<seq<T>>): seq<T> {
    if parts == [] then [] else Joined(parts[..|parts| - 1]) + parts[|parts| - 1]
  }

  lemma JoinedAppend<T>(parts: seq<seq<T>>, part: seq<T>)
    ensures Joined(parts + [part]) == Joined(parts) + part
  {
    assert (parts + [part])[..|parts|] == parts;
  }
}
