/** Offsets on a ring of n bytes, spans on it, and how the black holes are rotated,
    merged and jumped over.  Positions are also measured from the write offset: there
    a hole is an ordinary interval [s, e) of the line from 0 to n. */
module RingGeometry {
  import opened Basics

  /** BUFFER_LEN: the bytes from a forward to b. */
  function Fwd(n: nat, a: int, b: int): (d: nat)
    requires 0 <= a < n && 0 <= b < n
    ensures d < n
  {
    if a <= b then b - a else n + b - a
  }

  /** ADVANCE_OFFSET */
  function Adv(n: nat, a: int, k: nat): (b: nat)
    requires 0 <= a < n
    ensures b < n
  {
    (a + k) % n
  }

  lemma Reduce(n: nat, x: nat)
    requires x < 2 * n
    ensures x % n == if x < n then x else x - n
  {
    var p := x / n;
    assert x == p * n + x % n;
    if p > 1 {
      MulMono(2, p, n);
    } else if p < 0 {
      MulMono(p, -1, n);
    }
  }

  /** Fwd is the macro, and Adv by the distance to b leads to b. */
  lemma Macros(n: nat, a: nat, b: nat)
    requires a < n && b < n
    ensures (n + b - a) % n == Fwd(n, a, b)
    ensures Adv(n, a, Fwd(n, a, b)) == b
  {
    Reduce(n, n + b - a);
    Reduce(n, a + Fwd(n, a, b));
  }

  lemma AdvSmall(n: nat, a: nat, k: nat)
    requires a < n && k < n
    ensures Adv(n, a, k) == if a + k < n then a + k else a + k - n
    ensures Fwd(n, a, Adv(n, a, k)) == k
  {
    Reduce(n, a + k);
  }

  /** A span [start, end) of the ring, which may wrap; empty when start == end. */
  datatype Span = Span(start: nat, end: nat)

  predicate OnRing(n: nat, h: Span) {
    h.start < n && h.end < n
  }

  predicate AllOnRing(n: nat, hs: seq<Span>) {
    forall i :: 0 <= i < |hs| ==> OnRing(n, hs[i])
  }

  function Length(n: nat, h: Span): nat
    requires OnRing(n, h)
  {
    Fwd(n, h.start, h.end)
  }

  predicate Covers(n: nat, h: Span, x: nat)
    requires OnRing(n, h) && x < n
  {
    Fwd(n, h.start, x) < Length(n, h)
  }

  /** Some hole covers byte x. */
  ghost predicate InHole(n: nat, hs: seq<Span>, x: nat)
    requires AllOnRing(n, hs) && x < n
  {
    exists i :: 0 <= i < |hs| && Covers(n, hs[i], x)
  }

  /** w lies in (start, end]. */
  predicate Reaches(n: nat, w: nat, h: Span)
    requires OnRing(n, h) && w < n
  {
    0 < Fwd(n, h.start, w) <= Length(n, h)
  }

  /** w lies in no hole's (start, end]. */
  ghost predicate Clear(n: nat, w: nat, hs: seq<Span>)
    requires AllOnRing(n, hs) && w < n
  {
    forall i :: 0 <= i < |hs| ==> !Reaches(n, w, hs[i])
  }

  /** Put differently: the byte before w is in no hole. */
  lemma ClearIsFree(n: nat, w: nat, hs: seq<Span>)
    requires AllOnRing(n, hs) && w < n
    ensures Clear(n, w, hs) <==> !InHole(n, hs, Adv(n, w, n - 1))
  {
    AdvSmall(n, w, n - 1);
    forall i | 0 <= i < |hs|
      ensures Reaches(n, w, hs[i]) <==> Covers(n, hs[i], Adv(n, w, n - 1))
    {
    }
  }

  predicate NonEmpty(hs: seq<Span>) {
    forall i :: 0 <= i < |hs| ==> hs[i].start != hs[i].end
  }

  // ---------------------------------------------------------- positions from w

  /** An interval [s, e) of positions. */
  datatype Iv = Iv(s: nat, e: nat)

  function ToIv(n: nat, w: nat, h: Span): (v: Iv)
    requires w < n && OnRing(n, h)
    ensures v.s <= v.e && v.s < n
  {
    Iv(Fwd(n, w, h.start), Fwd(n, w, h.start) + Length(n, h))
  }

  function ToIvs(n: nat, w: nat, hs: seq<Span>): (vs: seq<Iv>)
    requires w < n && AllOnRing(n, hs)
    ensures |vs| == |hs| && forall i :: 0 <= i < |hs| ==> vs[i] == ToIv(n, w, hs[i])
  {
    seq(|hs|, i requires 0 <= i < |hs| => ToIv(n, w, hs[i]))
  }

  /** A byte is in the hole exactly when its position, on this turn or the next, is in the
      interval. */
  lemma CoversFromHere(n: nat, w: nat, h: Span, x: nat)
    requires w < n && x < n && OnRing(n, h)
    ensures var v, p := ToIv(n, w, h), Fwd(n, w, x);
            Covers(n, h, x) <==> v.s <= p < v.e || v.s <= p + n < v.e
  {
  }

  /** Where the hole ends, seen from w. */
  lemma EndFromHere(n: nat, w: nat, h: Span)
    requires w < n && OnRing(n, h)
    ensures var v := ToIv(n, w, h);
            && v.e < v.s + n && Fwd(n, w, h.end) == (if v.e < n then v.e else v.e - n)
            && (v.e >= n <==> Reaches(n, w, h))
  {
  }

  // --------------------------------------------------- rotating the sorted table

  predicate SortedByStart(hs: seq<Span>) {
    forall i, j :: 0 <= i < j < |hs| ==> hs[i].start <= hs[j].start
  }

  /** The first hole that starts at or after w. */
  function Nearest(w: nat, hs: seq<Span>): (k: nat)
    ensures k <= |hs|
    ensures forall i :: 0 <= i < k ==> hs[i].start < w
    ensures k < |hs| ==> hs[k].start >= w
  {
    if hs == [] || hs[0].start >= w then 0 else 1 + Nearest(w, hs[1..])
  }

  function Rotate(w: nat, hs: seq<Span>): (r: seq<Span>)
    ensures |r| == |hs|
  {
    hs[Nearest(w, hs)..] + hs[..Nearest(w, hs)]
  }

  predicate Ascending(vs: seq<Iv>) {
    forall i, j :: 0 <= i < j < |vs| ==> vs[i].s <= vs[j].s
  }

  /** Where the hole at position i of the rotated table comes from, and the other way. */
  function Origin(w: nat, hs: seq<Span>, i: nat): (j: nat)
    requires i < |hs|
    ensures j < |hs| && Rotate(w, hs)[i] == hs[j]
  {
    if i < |hs| - Nearest(w, hs) then Nearest(w, hs) + i else i - (|hs| - Nearest(w, hs))
  }

  function Place(w: nat, hs: seq<Span>, j: nat): (i: nat)
    requires j < |hs|
    ensures i < |hs| && Rotate(w, hs)[i] == hs[j]
  {
    if j >= Nearest(w, hs) then j - Nearest(w, hs) else j + (|hs| - Nearest(w, hs))
  }

  lemma RotateKeeps(n: nat, w: nat, hs: seq<Span>)
    requires AllOnRing(n, hs)
    ensures AllOnRing(n, Rotate(w, hs)) && (NonEmpty(hs) ==> NonEmpty(Rotate(w, hs)))
    ensures forall x: nat :: x < n ==> (InHole(n, Rotate(w, hs), x) <==> InHole(n, hs, x))
  {
    hide Rotate;
    var r := Rotate(w, hs);
    forall i | 0 <= i < |r|
      ensures r[i] == hs[Origin(w, hs, i)]
    {
    }
    forall x: nat | x < n
      ensures InHole(n, r, x) <==> InHole(n, hs, x)
    {
      if InHole(n, hs, x) {
        var j :| 0 <= j < |hs| && Covers(n, hs[j], x);
        assert r[Place(w, hs, j)] == hs[j];
      }
    }
  }

  /** Rotated to the write offset, the table ascends from there. */
  lemma RotateAscends(n: nat, w: nat, hs: seq<Span>)
    requires w < n && AllOnRing(n, hs) && SortedByStart(hs) && AllOnRing(n, Rotate(w, hs))
    ensures Ascending(ToIvs(n, w, Rotate(w, hs)))
  {
    var r := Rotate(w, hs);
    forall i, j | 0 <= i < j < |r|
      ensures ToIv(n, w, r[i]).s <= ToIv(n, w, r[j]).s
    {
      RotatePair(n, w, hs, i, j);
    }
  }

  lemma RotatePair(n: nat, w: nat, hs: seq<Span>, i: nat, j: nat)
    requires w < n && AllOnRing(n, hs) && SortedByStart(hs) && i < j < |hs|
    ensures Fwd(n, w, hs[Origin(w, hs, i)].start) <= Fwd(n, w, hs[Origin(w, hs, j)].start)
  {
    hide Rotate;
    var a, b, k := Origin(w, hs, i), Origin(w, hs, j), Nearest(w, hs);
    if a >= k {
      assert hs[k].start <= hs[a].start;
    }
    if b >= k {
      assert hs[k].start <= hs[b].start;
    }
  }

  // ----------------------------------------------------- merging, on positions

  function PushIv(vs: seq<Iv>, v: Iv): seq<Iv> {
    if vs == [] then [v]
    else
      var k := |vs| - 1;
      if v.s <= vs[k].e
      then vs[..k] + [Iv(vs[k].s, if v.e >= vs[k].e then v.e else vs[k].e)]
      else vs + [v]
  }

  function MergeIv(vs: seq<Iv>): seq<Iv> {
    if vs == [] then [] else PushIv(MergeIv(vs[..|vs| - 1]), vs[|vs| - 1])
  }

  ghost predicate In(vs: seq<Iv>, x: int) {
    exists i :: 0 <= i < |vs| && vs[i].s <= x < vs[i].e
  }

  /** One interval after the other, with a gap between any two. */
  predicate Separate(vs: seq<Iv>) {
    forall i, j :: 0 <= i < j < |vs| ==> vs[i].e < vs[j].s
  }

  predicate Proper(vs: seq<Iv>, bound: int) {
    forall i :: 0 <= i < |vs| ==> vs[i].s <= vs[i].e <= bound
  }

  lemma PushCovers(vs: seq<Iv>, v: Iv, x: int)
    requires v.s <= v.e && forall i :: 0 <= i < |vs| ==> vs[i].s <= vs[i].e
    requires vs != [] ==> vs[|vs| - 1].s <= v.s
    ensures In(PushIv(vs, v), x) <==> In(vs, x) || v.s <= x < v.e
  {
    var r := PushIv(vs, v);
    if In(vs, x) {
      var i :| 0 <= i < |vs| && vs[i].s <= x < vs[i].e;
      assert r[i].s <= x < r[i].e;
    }
    if v.s <= x < v.e {
      assert r[|r| - 1].s <= x < r[|r| - 1].e;
    }
  }

  /** Merging ascending intervals keeps exactly the covered positions and leaves a gap
      between any two results. */
  lemma {:induction false} MergeKeeps(vs: seq<Iv>, bound: int)
    requires Ascending(vs) && Proper(vs, bound)
    ensures var ms := MergeIv(vs);
            Separate(ms) && Proper(ms, bound) && (vs != [] ==> ms != [] && ms[|ms| - 1].s <= vs[|vs| - 1].s)
  {
    if vs != [] {
      var n := |vs| - 1;
      MergeKeeps(vs[..n], bound);
      PushKeeps(MergeIv(vs[..n]), vs[n], bound);
    }
  }

  lemma PushKeeps(ms: seq<Iv>, v: Iv, bound: int)
    requires Separate(ms) && Proper(ms, bound) && v.s <= v.e <= bound && (ms != [] ==> ms[|ms| - 1].s <= v.s)
    ensures var r := PushIv(ms, v);
            Separate(r) && Proper(r, bound) && r != [] && r[|r| - 1].s <= v.s
  {
  }

  lemma {:induction false} MergeCovers(vs: seq<Iv>, bound: int, x: int)
    requires Ascending(vs) && Proper(vs, bound)
    ensures In(MergeIv(vs), x) <==> In(vs, x)
  {
    hide In, PushIv, Separate;
    if vs != [] {
      var n := |vs| - 1;
      MergeKeeps(vs[..n], bound);
      MergeCovers(vs[..n], bound, x);
      PushCovers(MergeIv(vs[..n]), vs[n], x);
      InSnoc(vs[..n], vs[n], x);
      assert vs == vs[..n] + [vs[n]];
    }
  }

  lemma InSnoc(vs: seq<Iv>, v: Iv, x: int)
    ensures In(vs + [v], x) <==> In(vs, x) || v.s <= x < v.e
  {
    var r := vs + [v];
    assert forall i :: 0 <= i < |vs| ==> r[i] == vs[i];
    assert r[|vs|] == v;
  }

  // ------------------------------------------------------- merging, on the ring

  /** One turn of the merge loop when the hole h touches the last result. */
  function Extend(n: nat, last: Span, h: Span): (r: Span)
    requires OnRing(n, last) && OnRing(n, h)
    ensures OnRing(n, r) && r.start == last.start
  {
    var length := Fwd(n, last.start, h.end);
    if length >= Length(n, last) then Span(last.start, Adv(n, last.start, length)) else last
  }

  function Push(n: nat, ms: seq<Span>, h: Span): (r: seq<Span>)
    requires AllOnRing(n, ms) && OnRing(n, h)
    ensures AllOnRing(n, r)
  {
    if ms == [] then [h]
    else
      var last := ms[|ms| - 1];
      if Fwd(n, last.start, h.start) <= Length(n, last)
      then ms[..|ms| - 1] + [Extend(n, last, h)]
      else ms + [h]
  }

  function Merge(n: nat, hs: seq<Span>): (ms: seq<Span>)
    requires AllOnRing(n, hs)
    ensures AllOnRing(n, ms) && |ms| <= |hs| && (hs != [] ==> ms != [])
  {
    if hs == [] then [] else Push(n, Merge(n, hs[..|hs| - 1]), hs[|hs| - 1])
  }

  /** While the loop goes over ascending holes, the last result starts no later than the
      next one: the assertion in BlackHoleSortMerge. */
  lemma {:induction false} LastStartsBefore(n: nat, hs: seq<Span>, x: nat)
    requires AllOnRing(n, hs) && forall i :: 0 <= i < |hs| ==> hs[i].start <= x
    ensures var ms := Merge(n, hs); ms != [] ==> ms[|ms| - 1].start <= x
  {
    if hs != [] {
      LastStartsBefore(n, hs[..|hs| - 1], x);
    }
  }

  /** BlackHoleSortMerge */
  function SortMerge(n: nat, w: nat, hs: seq<Span>): (ms: seq<Span>)
    requires AllOnRing(n, hs)
    ensures AllOnRing(n, ms) && |ms| <= |hs|
  {
    RotateKeeps(n, w, hs);
    Merge(n, Rotate(w, hs))
  }

  /** Position x is in no interval, on this turn or the next. */
  ghost predicate FreeAt(n: nat, vs: seq<Iv>, x: int) {
    !In(vs, x) && !In(vs, x + n)
  }

  /** Two intervals that touch and leave some position free do not go all the way round. */
  lemma TouchingFits(n: nat, u: Iv, v: Iv, x: nat)
    requires u.s <= v.s <= u.e && v.s < n && x < n
    requires !(u.s <= x < u.e) && !(v.s <= x < v.e) && !(v.s <= x + n < v.e)
    ensures v.e < u.s + n
  {
  }

  lemma ExtendFromHere(n: nat, w: nat, last: Span, h: Span)
    requires w < n && OnRing(n, last) && OnRing(n, h)
    requires ToIv(n, w, last).s <= ToIv(n, w, h).s
    ensures Fwd(n, last.start, h.start) <= Length(n, last) <==> ToIv(n, w, h).s <= ToIv(n, w, last).e
    ensures ToIv(n, w, h).e < ToIv(n, w, last).s + n ==>
              var v, u := ToIv(n, w, h), ToIv(n, w, last);
              ToIv(n, w, Extend(n, last, h)) == Iv(u.s, if v.e >= u.e then v.e else u.e)
  {
    hide Adv;
    Macros(n, last.start, h.end);
  }

  lemma Snoc(n: nat, w: nat, ms: seq<Span>, h: Span)
    requires w < n && AllOnRing(n, ms) && OnRing(n, h)
    ensures AllOnRing(n, ms + [h]) && ToIvs(n, w, ms + [h]) == ToIvs(n, w, ms) + [ToIv(n, w, h)]
  {
    var r := ms + [h];
    assert r[|ms|] == h && forall i :: 0 <= i < |ms| ==> r[i] == ms[i];
  }

  lemma PushFromHere(n: nat, w: nat, ms: seq<Span>, h: Span, x: nat)
    requires w < n && x < n && AllOnRing(n, ms) && OnRing(n, h)
    requires FreeAt(n, ToIvs(n, w, ms), x) && FreeAt(n, [ToIv(n, w, h)], x)
    requires ms != [] ==> ToIv(n, w, ms[|ms| - 1]).s <= ToIv(n, w, h).s
    ensures ToIvs(n, w, Push(n, ms, h)) == PushIv(ToIvs(n, w, ms), ToIv(n, w, h))
  {
    if ms != [] {
      var front, last := ms[..|ms| - 1], ms[|ms| - 1];
      LastFits(n, w, ms, h, x);
      Snoc(n, w, front, last);
      assert ms == front + [last];
      ExtendFromHere(n, w, last, h);
      Snoc(n, w, front, Extend(n, last, h));
      Snoc(n, w, ms, h);
      hide Extend, ToIv, ToIvs, Fwd, Length, FreeAt;
    }
  }

  lemma LastFits(n: nat, w: nat, ms: seq<Span>, h: Span, x: nat)
    requires w < n && x < n && AllOnRing(n, ms) && OnRing(n, h) && ms != []
    requires FreeAt(n, ToIvs(n, w, ms), x) && FreeAt(n, [ToIv(n, w, h)], x)
    requires ToIv(n, w, ms[|ms| - 1]).s <= ToIv(n, w, h).s
    ensures var u, v := ToIv(n, w, ms[|ms| - 1]), ToIv(n, w, h);
            v.s <= u.e ==> v.e < u.s + n
  {
    var us, v := ToIvs(n, w, ms), ToIv(n, w, h);
    var u := us[|ms| - 1];
    var one := [v];
    assert !(one[0].s <= x < one[0].e) && !(one[0].s <= x + n < one[0].e);
    assert !(us[|ms| - 1].s <= x < us[|ms| - 1].e);
    if v.s <= u.e {
      TouchingFits(n, u, v, x);
    }
  }

  /** Merging on the ring is merging on positions, as long as some byte is in no hole. */
  lemma {:induction false} MergeFromHere(n: nat, w: nat, hs: seq<Span>, x: nat)
    requires w < n && x < n && AllOnRing(n, hs) && Ascending(ToIvs(n, w, hs)) && FreeAt(n, ToIvs(n, w, hs), x)
    ensures ToIvs(n, w, Merge(n, hs)) == MergeIv(ToIvs(n, w, hs))
  {
    hide Push, PushIv, ToIv, FreeAt;
    if hs != [] {
      var k := |hs| - 1;
      var front := hs[..k];
      var vs := ToIvs(n, w, front);
      Snoc(n, w, front, hs[k]);
      assert hs == front + [hs[k]] && ToIvs(n, w, hs)[..k] == vs;
      FreeParts(n, vs, ToIv(n, w, hs[k]), x);
      MergeFromHere(n, w, front, x);
      FrontMerged(n, w, front, x);
      LastBelow(vs, ToIv(n, w, hs[k]));
      hide ToIvs, Ascending;
      PushFromHere(n, w, Merge(n, front), hs[k], x);
    }
  }

  lemma FreeParts(n: nat, vs: seq<Iv>, v: Iv, x: int)
    requires FreeAt(n, vs + [v], x)
    ensures FreeAt(n, vs, x) && FreeAt(n, [v], x)
  {
    InSnoc(vs, v, x);
    InSnoc(vs, v, x + n);
    InSnoc([], v, x);
    InSnoc([], v, x + n);
    assert [] + [v] == [v];
  }

  lemma LastBelow(vs: seq<Iv>, v: Iv)
    requires Ascending(vs + [v])
    ensures vs != [] ==> vs[|vs| - 1].s <= v.s
  {
    var all := vs + [v];
    if vs != [] {
      assert all[|vs| - 1].s <= all[|vs|].s;
    }
  }

  lemma FrontMerged(n: nat, w: nat, hs: seq<Span>, x: nat)
    requires w < n && AllOnRing(n, hs) && Ascending(ToIvs(n, w, hs)) && FreeAt(n, ToIvs(n, w, hs), x)
    requires ToIvs(n, w, Merge(n, hs)) == MergeIv(ToIvs(n, w, hs))
    ensures FreeAt(n, ToIvs(n, w, Merge(n, hs)), x)
    ensures var ms := Merge(n, hs);
            ms != [] ==> hs != [] && ToIv(n, w, ms[|ms| - 1]).s <= ToIv(n, w, hs[|hs| - 1]).s
  {
    var vs := ToIvs(n, w, hs);
    TwoTurns(n, w, hs);
    MergeKeeps(vs, 2 * n);
    MergeCovers(vs, 2 * n, x);
    MergeCovers(vs, 2 * n, x + n);
  }

  lemma TwoTurns(n: nat, w: nat, hs: seq<Span>)
    requires w < n && AllOnRing(n, hs)
    ensures Proper(ToIvs(n, w, hs), 2 * n)
  {
  }

  lemma InFromHere(n: nat, w: nat, hs: seq<Span>, x: nat)
    requires w < n && x < n && AllOnRing(n, hs)
    ensures InHole(n, hs, x) <==> !FreeAt(n, ToIvs(n, w, hs), Fwd(n, w, x))
  {
    var vs, p := ToIvs(n, w, hs), Fwd(n, w, x);
    forall i | 0 <= i < |hs|
      ensures Covers(n, hs[i], x) <==> vs[i].s <= p < vs[i].e || vs[i].s <= p + n < vs[i].e
    {
      CoversFromHere(n, w, hs[i], x);
    }
    hide Covers, Fwd, ToIv;
  }

  /** What rotating and merging does to positions. */
  lemma SortMergeFromHere(n: nat, w: nat, hs: seq<Span>, free: nat)
    requires w < n && free < n && AllOnRing(n, hs) && SortedByStart(hs) && !InHole(n, hs, free)
    ensures var vs := ToIvs(n, w, Rotate(w, hs));
            Ascending(vs) && Proper(vs, 2 * n) && ToIvs(n, w, SortMerge(n, w, hs)) == MergeIv(vs)
  {
    var r := Rotate(w, hs);
    RotateKeeps(n, w, hs);
    RotateAscends(n, w, hs);
    InFromHere(n, w, r, free);
    TwoTurns(n, w, r);
    hide Rotate, Merge, MergeIv, ToIvs, FreeAt, InHole, Ascending, Proper;
    MergeFromHere(n, w, r, Fwd(n, w, free));
  }

  /** Unless the holes cover the whole ring, rotation and merging keep exactly the covered
      bytes, and seen from the write offset the results follow each other with gaps. */
  lemma SortMergeKeepsBytes(n: nat, w: nat, hs: seq<Span>, free: nat)
    requires w < n && free < n && AllOnRing(n, hs) && SortedByStart(hs) && !InHole(n, hs, free)
    ensures var ms := SortMerge(n, w, hs);
            && Separate(ToIvs(n, w, ms))
            && forall x: nat :: x < n ==> (InHole(n, ms, x) <==> InHole(n, hs, x))
  {
    var r := Rotate(w, hs);
    SortMergeFromHere(n, w, hs, free);
    RotateKeeps(n, w, hs);
    hide SortMerge, Rotate, ToIvs, MergeIv, InHole;
    var vs := ToIvs(n, w, r);
    MergeKeeps(vs, 2 * n);
    forall x: nat | x < n
      ensures InHole(n, SortMerge(n, w, hs), x) <==> InHole(n, hs, x)
    {
      InFromHere(n, w, r, x);
      InFromHere(n, w, SortMerge(n, w, hs), x);
      MergeCovers(vs, 2 * n, Fwd(n, w, x));
      MergeCovers(vs, 2 * n, Fwd(n, w, x) + n);
    }
  }
}
