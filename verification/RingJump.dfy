/** How BlackholeJump goes over the merged holes, and where it lands.  Seen from the write
    offset the merged holes are intervals with gaps between them; only the last one may
    reach past a whole turn, and then by the overhang it covers the first positions. */
module RingJump {
  import opened RingGeometry

  /** The test of BlackholeJump: writing t bytes from a, up to end, stays clear of h. */
  predicate Stops(a: nat, end: nat, h: Span) {
    if a < end then
      if h.start < h.end then (a > h.end && end > h.end) || (a < h.start && end <= h.start)
      else a < h.start && a > h.end && end <= h.start && end > h.end
    else h.end > h.start && a > h.end && end <= h.start
  }

  /** The loop of BlackholeJump over the merged holes. */
  function Jump(n: nat, a: nat, ms: seq<Span>, t: nat): (r: nat)
    requires a < n && AllOnRing(n, ms)
    ensures r < n
    decreases |ms|
  {
    if ms == [] || Stops(a, Adv(n, a, t), ms[0]) then a else Jump(n, ms[0].end, ms[1..], t)
  }

  /** The code stops exactly in front of a hole that is not empty, from outside it and
      not from its end, when the bytes fit. */
  lemma StopsExactly(n: nat, a: nat, h: Span, t: nat)
    requires a < n && OnRing(n, h) && 0 < t < n
    ensures Stops(a, Adv(n, a, t), h)
       <==> h.start != h.end && Fwd(n, h.start, a) > Length(n, h) && t <= Fwd(n, a, h.start)
  {
    AdvSmall(n, a, t);
  }

  // ------------------------------------------------------------------ on positions

  /** Where the gap in front of interval i begins. */
  function Gap(vs: seq<Iv>, i: nat): (p: nat)
    requires i <= |vs|
  {
    if i == 0 then 0 else vs[i - 1].e
  }

  /** The loop stops in front of interval i. */
  predicate Opens(n: nat, vs: seq<Iv>, i: nat, t: nat)
    requires i < |vs|
  {
    vs[i].s < vs[i].e < Gap(vs, i) + n && t <= vs[i].s - Gap(vs, i)
  }

  /** The first gap from gap i on where the loop stops; |vs| if it runs through. */
  function FirstOpen(n: nat, vs: seq<Iv>, t: nat, i: nat): (r: nat)
    requires i <= |vs|
    ensures i <= r <= |vs| && (forall j :: i <= j < r ==> !Opens(n, vs, j, t))
    ensures r < |vs| ==> Opens(n, vs, r, t)
    decreases |vs| - i
  {
    if i == |vs| || Opens(n, vs, i, t) then i else FirstOpen(n, vs, t, i + 1)
  }

  function OnTurn(n: nat, p: nat): int {
    if p < n then p else p - n
  }

  /** The position where the loop lands. */
  function Landing(n: nat, vs: seq<Iv>, t: nat): int {
    OnTurn(n, Gap(vs, FirstOpen(n, vs, t, 0)))
  }

  /** Where the loop is before it looks at hole i. */
  function From(w: nat, ms: seq<Span>, i: nat): nat
    requires i <= |ms|
  {
    if i == 0 then w else ms[i - 1].end
  }

  lemma FromHere(n: nat, w: nat, ms: seq<Span>, i: nat)
    requires w < n && AllOnRing(n, ms) && Separate(ToIvs(n, w, ms)) && i <= |ms|
    ensures From(w, ms, i) < n && Fwd(n, w, From(w, ms, i)) == OnTurn(n, Gap(ToIvs(n, w, ms), i))
    ensures i < |ms| ==> Gap(ToIvs(n, w, ms), i) <= ToIv(n, w, ms[i]).s < n
  {
    if i > 0 {
      EndFromHere(n, w, ms[i - 1]);
    }
  }

  /** One turn of the loop, on positions. */
  lemma OpensExactly(n: nat, w: nat, ms: seq<Span>, t: nat, i: nat)
    requires w < n && AllOnRing(n, ms) && Separate(ToIvs(n, w, ms)) && 0 < t < n && i < |ms|
    ensures From(w, ms, i) < n
    ensures Stops(From(w, ms, i), Adv(n, From(w, ms, i), t), ms[i]) <==> Opens(n, ToIvs(n, w, ms), i, t)
  {
    hide Adv, Stops;
    FromHere(n, w, ms, i);
    StopsExactly(n, From(w, ms, i), ms[i], t);
    Apart(n, w, From(w, ms, i), ms[i]);
  }

  lemma Apart(n: nat, w: nat, a: nat, h: Span)
    requires w < n && a < n && OnRing(n, h) && Fwd(n, w, a) <= ToIv(n, w, h).s
    ensures var v, p := ToIv(n, w, h), Fwd(n, w, a);
            && Fwd(n, a, h.start) == v.s - p
            && Fwd(n, h.start, a) == (if p == v.s then 0 else n - (v.s - p))
            && Length(n, h) == v.e - v.s && (h.start != h.end <==> v.s < v.e)
  {
  }

  lemma RestOf(ms: seq<Span>, i: nat)
    requires i < |ms|
    ensures ms[i..][1..] == ms[i + 1..] && ms[i..][0] == ms[i] && ms[i..] != []
  {
  }

  lemma {:induction false} JumpFrom(n: nat, w: nat, ms: seq<Span>, t: nat, i: nat)
    requires w < n && AllOnRing(n, ms) && Separate(ToIvs(n, w, ms)) && 0 < t < n && i <= |ms|
    ensures From(w, ms, i) < n
    ensures var vs := ToIvs(n, w, ms);
            Fwd(n, w, Jump(n, From(w, ms, i), ms[i..], t)) == OnTurn(n, Gap(vs, FirstOpen(n, vs, t, i)))
    decreases |ms| - i
  {
    hide Stops, Opens, Adv, Fwd, Separate, OnTurn, Gap, ToIvs, AllOnRing;
    FromHere(n, w, ms, i);
    if i < |ms| {
      OpensExactly(n, w, ms, t, i);
      RestOf(ms, i);
      JumpFrom(n, w, ms, t, i + 1);
    }
  }

  /** Where the loop lands, seen from the write offset. */
  lemma JumpLands(n: nat, w: nat, ms: seq<Span>, t: nat)
    requires w < n && AllOnRing(n, ms) && Separate(ToIvs(n, w, ms)) && 0 < t < n
    ensures Fwd(n, w, Jump(n, w, ms, t)) == Landing(n, ToIvs(n, w, ms), t)
  {
    assert ms[0..] == ms;
    JumpFrom(n, w, ms, t, 0);
  }

  // ------------------------------------------------------- what is free on positions

  /** The intervals before gap i end where it begins, at the latest. */
  lemma BelowGap(vs: seq<Iv>, i: nat, j: nat)
    requires Separate(vs) && Ordered(vs) && j < i <= |vs|
    ensures vs[j].e <= Gap(vs, i)
  {
    if j < i - 1 {
      assert vs[j].e < vs[i - 1].s;
    }
  }

  predicate Ordered(vs: seq<Iv>) {
    forall i :: 0 <= i < |vs| ==> vs[i].s <= vs[i].e
  }

  /** A position in gap i that the overhang does not reach is free. */
  lemma GapIsFree(n: nat, vs: seq<Iv>, i: nat, k: nat)
    requires Separate(vs) && Ordered(vs) && i <= |vs| && Gap(vs, i) <= k < n && (i < |vs| ==> k < vs[i].s)
    requires vs != [] ==> vs[|vs| - 1].e <= k + n
    ensures FreeAt(n, vs, k)
  {
    forall j | 0 <= j < |vs|
      ensures !(vs[j].s <= k < vs[j].e) && !(vs[j].s <= k + n < vs[j].e)
    {
      BelowGap(vs, |vs|, j);
      if j < i {
        BelowGap(vs, i, j);
      } else if j > i {
        assert vs[i].e < vs[j].s;
      }
    }
  }

  /** When no interval reaches a whole turn, all that follows the landing is free. */
  lemma LandingIsFree(n: nat, vs: seq<Iv>, t: nat, k: nat)
    requires Separate(vs) && Ordered(vs) && (vs != [] ==> vs[|vs| - 1].e < n) && 0 < t
    requires Landing(n, vs, t) <= k < Landing(n, vs, t) + t <= n
    ensures FreeAt(n, vs, k)
  {
    var i := FirstOpen(n, vs, t, 0);
    if i > 0 {
      BelowGap(vs, |vs|, i - 1);
    }
    GapIsFree(n, vs, i, k);
  }

  // --------------------------------------------- when the last interval hangs over

  /** The last interval reaches past a whole turn, and some position is free. */
  ghost predicate Hanging(n: nat, vs: seq<Iv>) {
    && Separate(vs) && vs != [] && vs[|vs| - 1].e >= n
    && (forall i :: 0 <= i < |vs| ==> vs[i].s < vs[i].e && vs[i].s < n)
    && exists x: nat :: x < n && FreeAt(n, vs, x)
  }

  /** How far it does. */
  function Over(n: nat, vs: seq<Iv>): int
    requires vs != []
  {
    vs[|vs| - 1].e - n
  }

  lemma OverEnds(n: nat, vs: seq<Iv>)
    requires Hanging(n, vs)
    ensures 0 <= Over(n, vs) < vs[|vs| - 1].s && Ordered(vs)
    ensures forall i :: 0 <= i < |vs| - 1 ==> vs[i].e < n
  {
    var x: nat :| x < n && FreeAt(n, vs, x);
    FreeIsOut(n, vs, x, |vs| - 1);
  }

  lemma FreeIsOut(n: nat, vs: seq<Iv>, x: int, i: nat)
    requires FreeAt(n, vs, x) && i < |vs|
    ensures !(vs[i].s <= x < vs[i].e) && !(vs[i].s <= x + n < vs[i].e)
  {
  }

  lemma GapsInTurn(n: nat, vs: seq<Iv>, i: nat)
    requires Hanging(n, vs) && i <= |vs|
    ensures i < |vs| ==> Gap(vs, i) < n
    ensures 0 <= OnTurn(n, Gap(vs, i)) && OnTurn(n, Gap(vs, i)) == (if i < |vs| then Gap(vs, i) else Over(n, vs))
  {
    OverEnds(n, vs);
  }

  /** One byte lands no later than more bytes do, when the loop stops for them. */
  lemma OneLandsFirst(n: nat, vs: seq<Iv>, t: nat)
    requires Hanging(n, vs) && 0 < t && FirstOpen(n, vs, t, 0) < |vs|
    ensures 0 <= Landing(n, vs, 1) <= Landing(n, vs, t) == Gap(vs, FirstOpen(n, vs, t, 0))
    ensures FirstOpen(n, vs, 1, 0) < |vs|
  {
    OverEnds(n, vs);
    var f, i := FirstOpen(n, vs, 1, 0), FirstOpen(n, vs, t, 0);
    assert Opens(n, vs, i, 1);
    assert f <= i;
    GapsGrow(vs, f, i);
    GapsInTurn(n, vs, f);
    GapsInTurn(n, vs, i);
  }

  /** The loop stops only behind the overhang, once a one-byte request lands on a free
      byte, or behind it. */
  lemma OpenBehind(n: nat, vs: seq<Iv>, t: nat)
    requires Hanging(n, vs) && 0 < t && FirstOpen(n, vs, t, 0) < |vs|
    requires FreeAt(n, vs, Landing(n, vs, 1)) || Over(n, vs) <= Landing(n, vs, 1)
    ensures Landing(n, vs, t) >= Over(n, vs)
  {
    OverEnds(n, vs);
    OneLandsFirst(n, vs, t);
    assert FreeAt(n, vs, Landing(n, vs, 1)) ==> !(vs[|vs| - 1].s <= Landing(n, vs, 1) + n < vs[|vs| - 1].e);
  }

  lemma GapsGrow(vs: seq<Iv>, i: nat, j: nat)
    requires Separate(vs) && Ordered(vs) && i <= j <= |vs|
    ensures Gap(vs, i) <= Gap(vs, j)
  {
    if 0 < i < j {
      BelowGap(vs, j, i - 1);
    }
  }

  /** len positions in a row are free. */
  ghost predicate Stretch(n: nat, vs: seq<Iv>, x: nat, len: int) {
    x + len <= n && forall k: nat :: x <= k < x + len ==> FreeAt(n, vs, k)
  }

  ghost predicate HasStretch(n: nat, vs: seq<Iv>, len: int) {
    exists x: nat :: Stretch(n, vs, x, len)
  }

  /** All that follows the landing of t is free, when the loop stops. */
  lemma StoppedIsFree(n: nat, vs: seq<Iv>, t: nat)
    requires Hanging(n, vs) && 0 < t && FirstOpen(n, vs, t, 0) < |vs|
    requires FreeAt(n, vs, Landing(n, vs, 1)) || Over(n, vs) <= Landing(n, vs, 1)
    ensures Over(n, vs) <= Landing(n, vs, t) && Stretch(n, vs, Landing(n, vs, t), t)
  {
    var i := FirstOpen(n, vs, t, 0);
    OpenBehind(n, vs, t);
    OneLandsFirst(n, vs, t);
    OverEnds(n, vs);
    forall k: nat | Gap(vs, i) <= k < Gap(vs, i) + t
      ensures FreeAt(n, vs, k)
    {
      GapIsFree(n, vs, i, k);
    }
  }

  /** A stretch of free positions lies in one gap. */
  lemma StretchInGap(n: nat, vs: seq<Iv>, x: nat, len: int) returns (g: nat)
    requires Hanging(n, vs) && len > 0 && Stretch(n, vs, x, len)
    ensures g < |vs| && Gap(vs, g) <= x && x + len <= vs[g].s && Over(n, vs) <= x
  {
    OverEnds(n, vs);
    var z := |vs| - 1;
    FreeIsOut(n, vs, x, z);
    g := 0;
    while vs[g].s < x
      invariant g <= z && Gap(vs, g) <= x
      decreases z - g
    {
      FreeIsOut(n, vs, x, g);
      g := g + 1;
    }
    if vs[g].s < x + len {
      FreeIsOut(n, vs, vs[g].s, g);
      assert false;
    }
  }

  /** The landing of t is free as well when the loop runs through, if a stretch of t
      positions is free somewhere and as many fit behind the overhang. */
  lemma ThroughIsFree(n: nat, vs: seq<Iv>, t: nat, x: nat, len: int, k: nat)
    requires Hanging(n, vs) && 0 < t <= len && Stretch(n, vs, x, len) && FirstOpen(n, vs, t, 0) == |vs|
    requires Over(n, vs) <= k < Over(n, vs) + t
    ensures FreeAt(n, vs, k)
  {
    OverEnds(n, vs);
    var g := StretchInGap(n, vs, x, len);
    assert !Opens(n, vs, g, t);
    assert g == |vs| - 1;
    GapIsFree(n, vs, g, k);
  }

  /** Every landing that leaves less than most behind it is followed by free bytes only. */
  ghost predicate AllLand(n: nat, vs: seq<Iv>, most: int) {
    forall t: nat, k: nat :: 0 < t && Landing(n, vs, t) <= k < Landing(n, vs, t) + t < most ==> FreeAt(n, vs, k)
  }

  lemma ThroughLanding(n: nat, vs: seq<Iv>, t: nat)
    requires Hanging(n, vs) && FirstOpen(n, vs, t, 0) == |vs|
    ensures Landing(n, vs, t) == Over(n, vs)
  {
  }

  /** One byte lands on a free position, or has no room there. */
  ghost predicate OneByteFits(n: nat, vs: seq<Iv>, most: int) {
    Landing(n, vs, 1) + 1 >= most || FreeAt(n, vs, Landing(n, vs, 1))
  }

  lemma EnoughIsSafe(n: nat, vs: seq<Iv>, most: int, x: nat)
    requires Hanging(n, vs) && most <= n && OneByteFits(n, vs, most)
    requires Stretch(n, vs, x, most - 1 - Over(n, vs))
    ensures AllLand(n, vs, most)
  {
    forall t: nat, k: nat | 0 < t && Landing(n, vs, t) <= k < Landing(n, vs, t) + t < most
      ensures FreeAt(n, vs, k)
    {
      if FirstOpen(n, vs, t, 0) == |vs| {
        ThroughLanding(n, vs, t);
        ThroughIsFree(n, vs, t, x, most - 1 - Over(n, vs), k);
      } else {
        OneLandsFirst(n, vs, t);
        StoppedIsFree(n, vs, t);
      }
    }
  }

  /** With an interval that hangs over: whatever lands is free exactly when one byte lands
      on a free position or has no room there, and, of the positions below most, as many
      as lie behind the overhang are free in a row somewhere. */
  lemma AllLandExactly(n: nat, vs: seq<Iv>, most: int)
    requires Hanging(n, vs) && most <= n
    ensures AllLand(n, vs, most) <==> OneByteFits(n, vs, most) && HasStretch(n, vs, most - 1 - Over(n, vs))
  {
    if AllLand(n, vs, most) {
      OverEnds(n, vs);
      GapsInTurn(n, vs, FirstOpen(n, vs, 1, 0));
      LongestIsFree(n, vs, most);
    } else if OneByteFits(n, vs, most) && HasStretch(n, vs, most - 1 - Over(n, vs)) {
      var x: nat :| Stretch(n, vs, x, most - 1 - Over(n, vs));
      EnoughIsSafe(n, vs, most, x);
    }
  }

  lemma LongestIsFree(n: nat, vs: seq<Iv>, most: int)
    requires Hanging(n, vs) && most <= n && AllLand(n, vs, most) && OneByteFits(n, vs, most)
    ensures HasStretch(n, vs, most - 1 - Over(n, vs))
  {
    OverEnds(n, vs);
    var t := most - 1 - Over(n, vs);
    if t <= 0 {
      assert Stretch(n, vs, 0, t);
    } else if FirstOpen(n, vs, t, 0) < |vs| {
      StoppedIsFree(n, vs, t);
    } else {
      ThroughLanding(n, vs, t);
      assert Stretch(n, vs, Over(n, vs), t);
    }
  }

  // ------------------------------------------------------- the least room needed

  /** The most bytes for which the loop stops in front of h; 0 if it does for none. */
  function RoomBefore(n: nat, a: nat, h: Span): nat
    requires a < n && OnRing(n, h)
  {
    if h.start != h.end && Fwd(n, h.start, a) > Length(n, h) then Fwd(n, a, h.start) else 0
  }

  /** The least room, jump included, that a request of t bytes or more needs when the loop
      goes over ms from a: one pass over the holes. */
  function LeastNeed(n: nat, w: nat, a: nat, ms: seq<Span>, t: nat): nat
    requires w < n && a < n && AllOnRing(n, ms)
    decreases |ms|
  {
    if ms == [] then Fwd(n, w, a) + t
    else
      var room := RoomBefore(n, a, ms[0]);
      var rest := LeastNeed(n, w, ms[0].end, ms[1..], if t <= room then room + 1 else t);
      if t <= room && Fwd(n, w, a) + t < rest then Fwd(n, w, a) + t else rest
  }

  ghost predicate NothingFits(n: nat, w: nat, a: nat, ms: seq<Span>, t: nat, most: nat)
    requires w < n && a < n && AllOnRing(n, ms)
  {
    forall u: nat :: t <= u < n ==> Fwd(n, w, Jump(n, a, ms, u)) + u >= most
  }

  /** It is less than most exactly when some request fits. */
  lemma {:induction false} LeastNeedExactly(n: nat, w: nat, a: nat, ms: seq<Span>, t: nat, most: nat)
    requires w < n && a < n && AllOnRing(n, ms) && 0 < t && most <= n
    ensures NothingFits(n, w, a, ms, t, most) <==> LeastNeed(n, w, a, ms, t) >= most
    decreases |ms|
  {
    if ms == [] {
      NothingFitsLast(n, w, a, t, most);
    } else {
      var room := RoomBefore(n, a, ms[0]);
      var next := if t <= room then room + 1 else t;
      LeastNeedExactly(n, w, ms[0].end, ms[1..], next, most);
      NothingFitsHere(n, w, a, ms, t, most, next);
    }
  }

  lemma NothingFitsLast(n: nat, w: nat, a: nat, t: nat, most: nat)
    requires w < n && a < n && most <= n
    ensures NothingFits(n, w, a, [], t, most) <==> Fwd(n, w, a) + t >= most
  {
    if NothingFits(n, w, a, [], t, most) && t < n {
      assert Jump(n, a, [], t) == a;
    }
  }

  lemma NothingFitsHere(n: nat, w: nat, a: nat, ms: seq<Span>, t: nat, most: nat, next: nat)
    requires w < n && a < n && AllOnRing(n, ms) && 0 < t && ms != []
    requires var room := RoomBefore(n, a, ms[0]); next == if t <= room then room + 1 else t
    ensures NothingFits(n, w, a, ms, t, most)
       <==> NothingFits(n, w, ms[0].end, ms[1..], next, most)
            && (t <= RoomBefore(n, a, ms[0]) ==> Fwd(n, w, a) + t >= most)
  {
    var room := RoomBefore(n, a, ms[0]);
    forall u: nat | t <= u < n
      ensures Jump(n, a, ms, u) == if u <= room then a else Jump(n, ms[0].end, ms[1..], u)
    {
      StopsExactly(n, a, ms[0], u);
    }
    hide Jump;
    if NothingFits(n, w, a, ms, t, most) {
      assert t <= room ==> Fwd(n, w, Jump(n, a, ms, t)) + t >= most;
      forall u: nat | next <= u < n
        ensures Fwd(n, w, Jump(n, ms[0].end, ms[1..], u)) + u >= most
      {
        assert Jump(n, a, ms, u) == Jump(n, ms[0].end, ms[1..], u);
      }
    }
  }
}
