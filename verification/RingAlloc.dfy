/** What __RequestWritePtr decides: whether a range of the ring may be written, and
    which range.  The class in CRingBuf.dfy is proved to decide exactly this. */
module RingAlloc {
  import opened Basics
  import opened RingGeometry
  import opened RingJump

  const MAX_CONSUMERS: nat := 10

  datatype UserState = Free | Holding | Blocked

  /** One consumer slot; an empty name means that nobody is installed in it. */
  datatype Consumer = Consumer(name: string, offset: nat, index: nat, refStart: nat, refEnd: nat,
                               state: UserState, moved: bool, waitIFrame: bool)

  predicate Installed(c: Consumer) {
    c.name != ""
  }

  predicate ReadersOnRing(n: nat, cs: seq<Consumer>) {
    forall i :: 0 <= i < |cs| ==> cs[i].offset < n
  }

  /** GetWritableSize for one reader. */
  function Writable(n: nat, w: nat, read: nat): (d: nat)
    requires w < n && read < n
    ensures 0 < d <= n
  {
    if read == w then n else Fwd(n, w, read)
  }

  /** The smallest writable size over all installed readers. */
  function MinWritable(n: nat, w: nat, cs: seq<Consumer>): (d: nat)
    requires w < n && ReadersOnRing(n, cs)
    ensures d <= n
  {
    if cs == [] then n
    else
      var c, d := cs[|cs| - 1], MinWritable(n, w, cs[..|cs| - 1]);
      if Installed(c) && Writable(n, w, c.offset) < d then Writable(n, w, c.offset) else d
  }

  /** The slots of the installed readers that leave at most need bytes. */
  function Short(n: nat, w: nat, cs: seq<Consumer>, need: nat): seq<nat>
    requires w < n && ReadersOnRing(n, cs)
  {
    if cs == [] then []
    else
      var k := |cs| - 1;
      Short(n, w, cs[..k], need) + (if Installed(cs[k]) && Writable(n, w, cs[k].offset) <= need then [k] else [])
  }

  function AlignUp(x: nat, a: nat): nat
    requires a > 0
  {
    (x + a - 1) / a * a
  }

  /** ALIGN, brought back onto the ring. */
  function Aligned(n: nat, at: nat, align: nat): (r: nat)
    requires align > 0 && n > 0
    ensures r < n
  {
    AlignUp(at, align) % n
  }

  /** Rejected: a null pointer; Refused: CRB_ERROR_SPACE and the readers in the way;
      Granted: the write offset moves by skip, and size bytes start pad after it. */
  datatype Outcome = Rejected | Refused(blockers: seq<nat>) | Granted(skip: nat, pad: nat)

  /** What the rest of the code needs to hold of a ring. */
  ghost predicate RingOk(n: nat, w: nat, cs: seq<Consumer>, hs: seq<Span>) {
    w < n <= 0x7fff_f000 && ReadersOnRing(n, cs) && AllOnRing(n, hs) && SortedByStart(hs)
  }

  /** How far BlackholeJump moves the write offset ahead of t bytes. */
  function Leap(n: nat, w: nat, hs: seq<Span>, t: nat): (k: nat)
    requires w < n && AllOnRing(n, hs)
    ensures k < n
  {
    Fwd(n, w, Jump(n, w, SortMerge(n, w, hs), t))
  }

  /** How far the write offset has to move to get past the holes in the way. */
  function Skip(n: nat, w: nat, hs: seq<Span>, size: nat, align: nat): (k: nat)
    requires w < n && AllOnRing(n, hs)
    ensures k < n
  {
    Leap(n, w, hs, size + align)
  }

  /** The room a request needs: the holes are only looked at when the size fits. */
  function Needed(n: nat, w: nat, cs: seq<Consumer>, hs: seq<Span>, size: nat, align: nat): (need: nat)
    requires w < n && ReadersOnRing(n, cs) && AllOnRing(n, hs)
    ensures need >= size
  {
    if size >= MinWritable(n, w, cs) then size else Skip(n, w, hs, size, align) + align + size
  }

  predicate NobodyInstalled(cs: seq<Consumer>) {
    forall i :: 0 <= i < |cs| ==> !Installed(cs[i])
  }

  /** Where the bytes go once there is room. */
  function Place(n: nat, w: nat, cs: seq<Consumer>, skip: nat, size: nat, align: nat): Outcome
    requires w < n && ReadersOnRing(n, cs)
  {
    var at := Adv(n, w, skip);
    if align > 0 && Short(n, w, cs, size + align) == [] then Granted(skip, Fwd(n, at, Aligned(n, at, align)))
    else if Short(n, w, cs, size) == [] then Granted(skip, 0)
    else Refused(Short(n, w, cs, size))
  }

  /** __RequestWritePtr by the producer; blocking: the caller passed no blocker list. */
  function Request(n: nat, w: nat, cs: seq<Consumer>, hs: seq<Span>, size: nat, align: nat, blocking: bool, written: bool): (r: Outcome)
    requires w < n && ReadersOnRing(n, cs) && AllOnRing(n, hs)
    ensures r.Rejected? <==> size == 0 || align > 4096
  {
    if size == 0 || align > 4096 then Rejected
    else if blocking && written && NobodyInstalled(cs) then Refused(Short(n, w, cs, size))
    else
      var need := Needed(n, w, cs, hs, size, align);
      if need >= MinWritable(n, w, cs) then Refused(Short(n, w, cs, need))
      else Place(n, w, cs, Skip(n, w, hs, size, align), size, align)
  }

  // ------------------------------------------------------------ sizes and blockers

  lemma {:induction false} MinIsLeast(n: nat, w: nat, cs: seq<Consumer>)
    requires w < n && ReadersOnRing(n, cs)
    ensures forall i :: 0 <= i < |cs| && Installed(cs[i]) ==> MinWritable(n, w, cs) <= Writable(n, w, cs[i].offset)
    ensures MinWritable(n, w, cs) == n || exists i :: 0 <= i < |cs| && Installed(cs[i]) && MinWritable(n, w, cs) == Writable(n, w, cs[i].offset)
  {
    if cs != [] {
      var k := |cs| - 1;
      MinIsLeast(n, w, cs[..k]);
      assert forall i :: 0 <= i < k ==> cs[i] == cs[..k][i];
    }
  }

  lemma {:induction false} ShortExactly(n: nat, w: nat, cs: seq<Consumer>, need: nat, i: nat)
    requires w < n && ReadersOnRing(n, cs)
    ensures i in Short(n, w, cs, need) <==> i < |cs| && Installed(cs[i]) && Writable(n, w, cs[i].offset) <= need
  {
    if cs != [] {
      ShortExactly(n, w, cs[..|cs| - 1], need, i);
    }
  }

  /** Nobody is in the way of less than the smallest writable size. */
  lemma NobodyShort(n: nat, w: nat, cs: seq<Consumer>, need: nat)
    requires w < n && ReadersOnRing(n, cs) && need < MinWritable(n, w, cs)
    ensures Short(n, w, cs, need) == []
  {
    MinIsLeast(n, w, cs);
    if Short(n, w, cs, need) != [] {
      ShortExactly(n, w, cs, need, Short(n, w, cs, need)[0]);
    }
  }

  /** Once the room has been found the two last refusals of the code cannot happen: the
      bytes are placed, aligned if that was asked. */
  lemma RoomIsEnough(n: nat, w: nat, cs: seq<Consumer>, skip: nat, size: nat, align: nat)
    requires w < n && ReadersOnRing(n, cs) && skip + align + size < MinWritable(n, w, cs)
    ensures var at := Adv(n, w, skip);
            Place(n, w, cs, skip, size, align)
            == Granted(skip, if align > 0 then Fwd(n, at, Aligned(n, at, align)) else 0)
  {
    NobodyShort(n, w, cs, size);
    NobodyShort(n, w, cs, size + align);
  }

  /** The smallest writable size is what decides. */
  lemma GrantedExactly(n: nat, w: nat, cs: seq<Consumer>, hs: seq<Span>, size: nat, align: nat, blocking: bool, written: bool)
    requires w < n && ReadersOnRing(n, cs) && AllOnRing(n, hs) && 0 < size && align <= 4096
    ensures Request(n, w, cs, hs, size, align, blocking, written).Granted?
       <==> Needed(n, w, cs, hs, size, align) < MinWritable(n, w, cs) && !(blocking && written && NobodyInstalled(cs))
  {
    if Needed(n, w, cs, hs, size, align) < MinWritable(n, w, cs) {
      RoomIsEnough(n, w, cs, Skip(n, w, hs, size, align), size, align);
    }
  }

  /** A refusal names exactly the installed readers that leave no more room than was
      needed, skipped bytes included; and at least one, if any is installed. */
  lemma RefusalNamesBlockers(n: nat, w: nat, cs: seq<Consumer>, hs: seq<Span>, size: nat, align: nat, blocking: bool, written: bool)
    requires w < n && ReadersOnRing(n, cs) && AllOnRing(n, hs) && size <= n
    requires Request(n, w, cs, hs, size, align, blocking, written).Refused?
    ensures var b := Request(n, w, cs, hs, size, align, blocking, written).blockers;
            && (forall i: nat :: i in b <==> i < |cs| && Installed(cs[i])
                                             && Writable(n, w, cs[i].offset) <= Needed(n, w, cs, hs, size, align))
            && (b == [] <==> NobodyInstalled(cs))
  {
    var b := Request(n, w, cs, hs, size, align, blocking, written).blockers;
    var need := Needed(n, w, cs, hs, size, align);
    GrantedExactly(n, w, cs, hs, size, align, blocking, written);
    MinIsLeast(n, w, cs);
    forall i: nat
      ensures i in b <==> i < |cs| && Installed(cs[i]) && Writable(n, w, cs[i].offset) <= need
    {
      ShortExactly(n, w, cs, need, i);
      ShortExactly(n, w, cs, size, i);
    }
    if b != [] {
      assert b[0] in b;
    }
  }

  /** Whom a refusal names.  If somebody leaves no more room than the bytes themselves, those
      who do not; otherwise those who leave no more than the bytes, the alignment and what has
      to be skipped. */
  lemma NamedExactly(n: nat, w: nat, cs: seq<Consumer>, hs: seq<Span>, size: nat, align: nat, blocking: bool, written: bool, i: nat)
    requires w < n && ReadersOnRing(n, cs) && AllOnRing(n, hs) && size <= n && i < |cs|
    requires Request(n, w, cs, hs, size, align, blocking, written).Refused?
    ensures i in Request(n, w, cs, hs, size, align, blocking, written).blockers
       <==> && Installed(cs[i])
            && (|| Writable(n, w, cs[i].offset) <= size
                || (&& (forall j :: 0 <= j < |cs| && Installed(cs[j]) ==> Writable(n, w, cs[j].offset) > size)
                    && Writable(n, w, cs[i].offset) <= Skip(n, w, hs, size, align) + align + size))
  {
    hide Request, Skip, MinWritable;
    RefusalNamesBlockers(n, w, cs, hs, size, align, blocking, written);
    MinIsLeast(n, w, cs);
  }

  // ---------------------------------------------------------------- what is granted

  /** Byte x holds data the reader at read has not consumed: it lies in [read, w). */
  predicate Unread(n: nat, w: nat, read: nat, x: nat)
    requires w < n && read < n && x < n
  {
    Fwd(n, read, x) < Fwd(n, read, w)
  }

  lemma AlignPads(x: nat, a: nat, n: nat, q: nat)
    requires 0 < a && x < n == q * a
    ensures x <= AlignUp(x, a) < x + a && AlignUp(x, a) <= n
    ensures AlignUp(x, a) % a == 0
  {
    var c := (x + a - 1) / a;
    assert x + a - 1 == c * a + (x + a - 1) % a;
    if c > q {
      MulMono(q + 1, c, a);
    }
    Multiples(c, a);
  }

  lemma Multiples(c: nat, a: nat)
    requires a > 0
    ensures c * a % a == 0
  {
    var r := c * a % a;
    var p := c * a / a;
    assert c * a == p * a + r;
    if c > p {
      MulMono(p + 1, c, a);
    } else if c < p {
      MulMono(c + 1, p, a);
    }
  }

  /** The granted bytes start less than align after the new write offset, at a multiple
      of align. */
  lemma PadIsSmall(n: nat, at: nat, align: nat)
    requires at < n && 0 < align && n % align == 0
    ensures Fwd(n, at, Aligned(n, at, align)) < align
    ensures Adv(n, at, Fwd(n, at, Aligned(n, at, align))) % align == 0
  {
    var up := AlignUp(at, align);
    AlignPads(at, align, n, n / align);
    Reduce(n, up);
    Macros(n, at, Aligned(n, at, align));
    Multiples(0, align);
  }

  /** A byte less than Writable after w is not unread. */
  lemma AheadIsFree(n: nat, w: nat, read: nat, k: nat)
    requires w < n && read < n && k < Writable(n, w, read)
    ensures !Unread(n, w, read, Adv(n, w, k))
  {
    AdvSmall(n, w, k);
  }

  /** Seen from an offset that is clear, no hole reaches a whole turn. */
  lemma ClearFromHere(n: nat, w: nat, ms: seq<Span>)
    requires w < n && AllOnRing(n, ms) && Clear(n, w, ms)
    ensures forall i :: 0 <= i < |ms| ==> ToIv(n, w, ms[i]).e < n
  {
    forall i | 0 <= i < |ms|
      ensures ToIv(n, w, ms[i]).e < n
    {
      EndFromHere(n, w, ms[i]);
    }
  }

  /** Rotated and merged holes, seen from an offset that is clear. */
  lemma MergedClear(n: nat, w: nat, hs: seq<Span>)
    requires w < n && AllOnRing(n, hs) && SortedByStart(hs) && Clear(n, w, hs)
    ensures var ms := SortMerge(n, w, hs);
            && Separate(ToIvs(n, w, ms)) && (forall i :: 0 <= i < |ms| ==> ToIv(n, w, ms[i]).e < n)
            && forall x: nat :: x < n ==> (InHole(n, ms, x) <==> InHole(n, hs, x))
  {
    var before := Adv(n, w, n - 1);
    ClearIsFree(n, w, hs);
    SortMergeKeepsBytes(n, w, hs, before);
    ClearIsFree(n, w, SortMerge(n, w, hs));
    hide SortMerge, Adv, ToIvs, Separate;
    ClearFromHere(n, w, SortMerge(n, w, hs));
  }

  /** The bytes that follow a jump are in no hole. */
  lemma JumpedIsFree(n: nat, w: nat, hs: seq<Span>, t: nat, k: nat)
    requires w < n && AllOnRing(n, hs) && SortedByStart(hs) && Clear(n, w, hs) && 0 < t < n
    requires var p := Leap(n, w, hs, t);
             p <= k < p + t && p + t <= n
    ensures !InHole(n, hs, Adv(n, w, k))
  {
    var ms := SortMerge(n, w, hs);
    MergedClear(n, w, hs);
    JumpLands(n, w, ms, t);
    hide SortMerge, Jump, Separate, FirstOpen;
    LandingIsFree(n, ToIvs(n, w, ms), t, k);
    AdvSmall(n, w, k);
    InFromHere(n, w, ms, Adv(n, w, k));
  }

  /** What a grant is, in numbers. */
  lemma GrantFacts(n: nat, w: nat, cs: seq<Consumer>, hs: seq<Span>, size: nat, align: nat, blocking: bool, written: bool)
    requires w < n && ReadersOnRing(n, cs) && AllOnRing(n, hs) && (align > 0 ==> n % align == 0)
    requires Request(n, w, cs, hs, size, align, blocking, written).Granted?
    ensures var g := Request(n, w, cs, hs, size, align, blocking, written);
            && 0 < size && g.skip == Skip(n, w, hs, size, align)
            && g.skip + size + align < MinWritable(n, w, cs)
            && (if align > 0 then g.pad < align && Adv(n, Adv(n, w, g.skip), g.pad) % align == 0 else g.pad == 0)
  {
    GrantedExactly(n, w, cs, hs, size, align, blocking, written);
    RoomIsEnough(n, w, cs, Skip(n, w, hs, size, align), size, align);
    if align > 0 {
      PadIsSmall(n, Adv(n, w, Skip(n, w, hs, size, align)), align);
    }
  }

  /** Every granted byte is free: it is in no black hole and unread by no installed
      reader, for every ring, every set of readers and every table of holes sorted by
      start, provided the write offset is in no hole's (start, end]. */
  lemma GrantIsFree(n: nat, w: nat, cs: seq<Consumer>, hs: seq<Span>, size: nat, align: nat, blocking: bool, written: bool, k: nat)
    requires RingOk(n, w, cs, hs) && Clear(n, w, hs) && (align > 0 ==> n % align == 0) && k < size
    requires Request(n, w, cs, hs, size, align, blocking, written).Granted?
    ensures var g := Request(n, w, cs, hs, size, align, blocking, written);
            var x := Adv(n, Adv(n, Adv(n, w, g.skip), g.pad), k);
            && !InHole(n, hs, x)
            && forall i :: 0 <= i < |cs| && Installed(cs[i]) ==> !Unread(n, w, cs[i].offset, x)
  {
    hide Request, Leap, Adv, MinWritable, InHole, Clear, Unread, SortedByStart;
    var g := Request(n, w, cs, hs, size, align, blocking, written);
    GrantFacts(n, w, cs, hs, size, align, blocking, written);
    var p := g.skip + g.pad;
    AdvTwice(n, w, g.skip, g.pad);
    AdvTwice(n, w, p, k);
    FreeAhead(n, w, cs, hs, size + align, p + k);
  }

  lemma FreeAhead(n: nat, w: nat, cs: seq<Consumer>, hs: seq<Span>, t: nat, k: nat)
    requires RingOk(n, w, cs, hs) && Clear(n, w, hs) && 0 < t
    requires Leap(n, w, hs, t) <= k < Leap(n, w, hs, t) + t < MinWritable(n, w, cs)
    ensures !InHole(n, hs, Adv(n, w, k))
    ensures forall i :: 0 <= i < |cs| && Installed(cs[i]) ==> !Unread(n, w, cs[i].offset, Adv(n, w, k))
  {
    hide Leap, Adv, InHole, Clear, Unread, MinWritable;
    JumpedIsFree(n, w, hs, t, k);
    AheadOfAll(n, w, cs, k);
  }

  lemma AheadOfAll(n: nat, w: nat, cs: seq<Consumer>, k: nat)
    requires w < n && ReadersOnRing(n, cs) && k < MinWritable(n, w, cs)
    ensures forall i :: 0 <= i < |cs| && Installed(cs[i]) ==> !Unread(n, w, cs[i].offset, Adv(n, w, k))
  {
    MinIsLeast(n, w, cs);
    forall i | 0 <= i < |cs| && Installed(cs[i])
      ensures !Unread(n, w, cs[i].offset, Adv(n, w, k))
    {
      AheadIsFree(n, w, cs[i].offset, k);
    }
  }

  lemma AdvTwice(n: nat, w: nat, j: nat, k: nat)
    requires w < n && j + k < n
    ensures Adv(n, Adv(n, w, j), k) == Adv(n, w, j + k)
  {
    AdvSmall(n, w, j);
    AdvSmall(n, Adv(n, w, j), k);
    AdvSmall(n, w, j + k);
  }

  // ------------------------------------------------- keeping the write offset clear

  /** The write offset after CommitWrite(c) has followed a grant; c == 0 discards it. */
  function Committed(n: nat, w: nat, skip: nat, pad: nat, c: nat): (r: nat)
    requires w < n
    ensures r < n
  {
    if c == 0 then Adv(n, w, skip) else Adv(n, Adv(n, w, skip), c + pad)
  }

  /** The byte before the offset k after w. */
  lemma BeforeAdv(n: nat, w: nat, k: nat)
    requires w < n && 0 < k < n
    ensures Adv(n, Adv(n, w, k), n - 1) == Adv(n, w, k - 1)
  {
    AdvSmall(n, w, k);
    AdvSmall(n, w, k - 1);
    AdvSmall(n, Adv(n, w, k), n - 1);
  }

  /** So the offset k after w is clear exactly when the byte before it is in no hole. */
  lemma ClearAfter(n: nat, w: nat, hs: seq<Span>, k: nat)
    requires w < n && AllOnRing(n, hs) && 0 < k < n
    ensures Clear(n, Adv(n, w, k), hs) <==> !InHole(n, hs, Adv(n, w, k - 1))
  {
    ClearIsFree(n, Adv(n, w, k), hs);
    BeforeAdv(n, w, k);
  }

  predicate Strict(vs: seq<Iv>) {
    forall i :: 0 <= i < |vs| ==> vs[i].s < vs[i].e
  }

  lemma {:induction false} MergeStrict(vs: seq<Iv>)
    requires Strict(vs)
    ensures Strict(MergeIv(vs))
  {
    if vs != [] {
      MergeStrict(vs[..|vs| - 1]);
    }
  }

  lemma StrictFromHere(n: nat, w: nat, hs: seq<Span>)
    requires w < n && AllOnRing(n, hs) && NonEmpty(hs)
    ensures Strict(ToIvs(n, w, hs))
  {
  }

  lemma SortMergeStrict(n: nat, w: nat, hs: seq<Span>, free: nat)
    requires w < n && free < n && AllOnRing(n, hs) && SortedByStart(hs) && NonEmpty(hs) && !InHole(n, hs, free)
    ensures Strict(ToIvs(n, w, SortMerge(n, w, hs)))
  {
    RotateKeeps(n, w, hs);
    SortMergeFromHere(n, w, hs, free);
    hide Rotate, SortMerge, MergeIv, Strict, NonEmpty, InHole;
    StrictFromHere(n, w, Rotate(w, hs));
    MergeStrict(ToIvs(n, w, Rotate(w, hs)));
  }

  /** A jump leads to a place that follows a byte in a hole. */
  lemma JumpFollowsHole(n: nat, w: nat, hs: seq<Span>, t: nat)
    requires w < n && AllOnRing(n, hs) && SortedByStart(hs) && Clear(n, w, hs) && NonEmpty(hs) && 0 < t < n
    requires var p := Leap(n, w, hs, t); p > 0
    ensures var p := Leap(n, w, hs, t);
            InHole(n, hs, Adv(n, w, p - 1))
  {
    var ms, p := SortMerge(n, w, hs), Leap(n, w, hs, t);
    MergedClear(n, w, hs);
    ClearIsFree(n, w, hs);
    SortMergeStrict(n, w, hs, Adv(n, w, n - 1));
    JumpLands(n, w, ms, t);
    AdvSmall(n, w, p - 1);
    InFromHere(n, w, ms, Adv(n, w, p - 1));
    hide SortMerge, Jump, Adv, FirstOpen;
    LandingFollows(n, ToIvs(n, w, ms), t);
  }

  lemma LandingFollows(n: nat, vs: seq<Iv>, t: nat)
    requires Strict(vs) && (forall i :: 0 <= i < |vs| ==> vs[i].e < n) && Landing(n, vs, t) > 0
    ensures !FreeAt(n, vs, Landing(n, vs, t) - 1)
  {
    var i := FirstOpen(n, vs, t, 0);
    assert vs[i - 1].s <= Landing(n, vs, t) - 1 < vs[i - 1].e;
  }

  lemma AfterCommit(n: nat, w: nat, hs: seq<Span>, t: nat, pad: nat, c: nat)
    requires w < n && AllOnRing(n, hs) && SortedByStart(hs) && Clear(n, w, hs)
    requires 0 < t && pad + c <= t && Leap(n, w, hs, t) + t < n
    ensures c > 0 || Leap(n, w, hs, t) == 0 ==> Clear(n, Committed(n, w, Leap(n, w, hs, t), pad, c), hs)
    ensures NonEmpty(hs) && Clear(n, Committed(n, w, Leap(n, w, hs, t), pad, c), hs) ==> c > 0 || Leap(n, w, hs, t) == 0
  {
    hide Leap, Adv, Clear, InHole;
    var p := Leap(n, w, hs, t);
    if c > 0 {
      JumpedIsFree(n, w, hs, t, p + (c + pad) - 1);
      ClearAfter(n, w, hs, p + (c + pad));
      AdvTwice(n, w, p, c + pad);
    } else if p > 0 {
      if NonEmpty(hs) {
        JumpFollowsHole(n, w, hs, t);
      }
      ClearAfter(n, w, hs, p);
    } else {
      AdvSmall(n, w, 0);
    }
  }

  /** After a grant the write offset is again in no hole's (start, end], so that the next
      grant is free too, exactly when bytes were committed or no hole was jumped over. */
  lemma CommitKeepsClear(n: nat, w: nat, cs: seq<Consumer>, hs: seq<Span>, size: nat, align: nat, blocking: bool, written: bool, c: nat)
    requires RingOk(n, w, cs, hs) && Clear(n, w, hs) && NonEmpty(hs) && (align > 0 ==> n % align == 0) && c <= size
    requires Request(n, w, cs, hs, size, align, blocking, written).Granted?
    ensures var g := Request(n, w, cs, hs, size, align, blocking, written);
            Clear(n, Committed(n, w, g.skip, g.pad, c), hs) <==> c > 0 || g.skip == 0
  {
    var g := Request(n, w, cs, hs, size, align, blocking, written);
    GrantFacts(n, w, cs, hs, size, align, blocking, written);
    hide Request, Leap, Clear, MinWritable, Committed, NonEmpty;
    AfterCommit(n, w, hs, size + align, g.pad, c);
  }

  // --------------------------------------------------- when the offset is not clear

  /** Every byte of every grant is in no hole: whatever size and alignment are asked for. */
  ghost predicate GrantsFree(n: nat, w: nat, cs: seq<Consumer>, hs: seq<Span>)
    requires w < n && ReadersOnRing(n, cs) && AllOnRing(n, hs)
  {
    forall size: nat, align: nat, k: nat ::
      GrantAt(n, w, cs, hs, size, align) && k < size ==> !InHole(n, hs, GrantedByte(n, w, cs, hs, size, align, k))
  }

  /** A request of that size and alignment is granted. */
  ghost predicate GrantAt(n: nat, w: nat, cs: seq<Consumer>, hs: seq<Span>, size: nat, align: nat)
    requires w < n && ReadersOnRing(n, cs) && AllOnRing(n, hs)
  {
    (align > 0 ==> n % align == 0) && Request(n, w, cs, hs, size, align, false, true).Granted?
  }

  /** Byte k of what is granted. */
  function GrantedByte(n: nat, w: nat, cs: seq<Consumer>, hs: seq<Span>, size: nat, align: nat, k: nat): (x: nat)
    requires w < n && ReadersOnRing(n, cs) && AllOnRing(n, hs)
    requires Request(n, w, cs, hs, size, align, false, true).Granted?
    ensures x < n
  {
    var g := Request(n, w, cs, hs, size, align, false, true);
    Adv(n, Adv(n, Adv(n, w, g.skip), g.pad), k)
  }

  ghost predicate NothingGranted(n: nat, w: nat, cs: seq<Consumer>, hs: seq<Span>)
    requires w < n && ReadersOnRing(n, cs) && AllOnRing(n, hs)
  {
    forall size: nat, align: nat :: !GrantAt(n, w, cs, hs, size, align)
  }

  /** len bytes in a row, from x on, are in no hole. */
  ghost predicate FreeRun(n: nat, hs: seq<Span>, x: nat, len: int)
    requires AllOnRing(n, hs) && x < n
  {
    len <= n && forall k: nat :: k < len ==> !InHole(n, hs, Adv(n, x, k))
  }

  ghost predicate HasFreeRun(n: nat, hs: seq<Span>, len: int)
    requires AllOnRing(n, hs)
  {
    exists x: nat :: x < n && FreeRun(n, hs, x, len)
  }

  /** How far the holes that hold the byte before w reach on from w. */
  function Overhang(n: nat, w: nat, hs: seq<Span>): (e: nat)
    requires w < n && AllOnRing(n, hs)
  {
    if hs == [] then 0
    else
      var h, e := hs[|hs| - 1], Overhang(n, w, hs[..|hs| - 1]);
      if Reaches(n, w, h) && Fwd(n, w, h.end) > e then Fwd(n, w, h.end) else e
  }

  /** What the jump alone decides about all grants. */
  ghost predicate LeapsFree(n: nat, w: nat, hs: seq<Span>, most: nat)
    requires w < n && AllOnRing(n, hs)
  {
    forall t: nat, k: nat :: 0 < t && Leap(n, w, hs, t) <= k < Leap(n, w, hs, t) + t < most ==> !InHole(n, hs, Adv(n, w, k))
  }

  /** A request without alignment is granted exactly when what it needs is less than the
      smallest writable size, and then right behind the jump. */
  lemma PlainGrant(n: nat, w: nat, cs: seq<Consumer>, hs: seq<Span>, t: nat)
    requires w < n && ReadersOnRing(n, cs) && AllOnRing(n, hs) && 0 < t
    ensures GrantAt(n, w, cs, hs, t, 0) <==> Leap(n, w, hs, t) + t < MinWritable(n, w, cs)
    ensures GrantAt(n, w, cs, hs, t, 0) ==> Request(n, w, cs, hs, t, 0, false, true) == Granted(Leap(n, w, hs, t), 0)
  {
    hide Leap;
    GrantedExactly(n, w, cs, hs, t, 0, false, true);
    if GrantAt(n, w, cs, hs, t, 0) {
      RoomIsEnough(n, w, cs, Leap(n, w, hs, t), t, 0);
    }
  }

  lemma GrantsAreLeaps(n: nat, w: nat, cs: seq<Consumer>, hs: seq<Span>)
    requires w < n && ReadersOnRing(n, cs) && AllOnRing(n, hs)
    ensures GrantsFree(n, w, cs, hs) <==> LeapsFree(n, w, hs, MinWritable(n, w, cs))
  {
    var most := MinWritable(n, w, cs);
    hide Leap, InHole, MinWritable, Adv;
    if GrantsFree(n, w, cs, hs) {
      forall t: nat, k: nat | 0 < t && Leap(n, w, hs, t) <= k < Leap(n, w, hs, t) + t < most
        ensures !InHole(n, hs, Adv(n, w, k))
      {
        PlainGrant(n, w, cs, hs, t);
        var p := Leap(n, w, hs, t);
        AdvTwice(n, w, p, 0);
        AdvTwice(n, w, p, k - p);
        assert GrantedByte(n, w, cs, hs, t, 0, k - p) == Adv(n, w, k);
      }
    }
    if LeapsFree(n, w, hs, most) {
      forall size: nat, align: nat, k: nat | GrantAt(n, w, cs, hs, size, align) && k < size
        ensures !InHole(n, hs, GrantedByte(n, w, cs, hs, size, align, k))
      {
        GrantInLeap(n, w, cs, hs, size, align, k);
      }
    }
  }

  /** A granted byte lies behind the jump of the request, its alignment counted in. */
  lemma GrantInLeap(n: nat, w: nat, cs: seq<Consumer>, hs: seq<Span>, size: nat, align: nat, k: nat)
    requires w < n && ReadersOnRing(n, cs) && AllOnRing(n, hs)
    requires GrantAt(n, w, cs, hs, size, align) && k < size
    ensures var p, t := Leap(n, w, hs, size + align), size + align;
            && 0 < t && p + t < MinWritable(n, w, cs)
            && exists j: nat :: p <= j < p + t && GrantedByte(n, w, cs, hs, size, align, k) == Adv(n, w, j)
  {
    GrantFacts(n, w, cs, hs, size, align, false, true);
    hide Request, Leap, MinWritable, Adv;
    var g := Request(n, w, cs, hs, size, align, false, true);
    AdvTwice(n, w, g.skip, g.pad);
    AdvTwice(n, w, g.skip + g.pad, k);
  }

  // ------------------------------------------------------------ holes over the offset

  lemma {:induction false} OverhangIs(n: nat, w: nat, hs: seq<Span>)
    requires w < n && AllOnRing(n, hs)
    ensures forall i :: 0 <= i < |hs| && Reaches(n, w, hs[i]) ==> Fwd(n, w, hs[i].end) <= Overhang(n, w, hs)
    ensures !Clear(n, w, hs) ==> exists i :: 0 <= i < |hs| && Reaches(n, w, hs[i]) && Fwd(n, w, hs[i].end) == Overhang(n, w, hs)
  {
    if hs != [] {
      var k := |hs| - 1;
      OverhangIs(n, w, hs[..k]);
      assert forall i :: 0 <= i < k ==> hs[i] == hs[..k][i];
      if Clear(n, w, hs[..k]) {
        ClearHasNone(n, w, hs[..k]);
      }
    }
  }

  lemma {:induction false} ClearHasNone(n: nat, w: nat, hs: seq<Span>)
    requires w < n && AllOnRing(n, hs) && Clear(n, w, hs)
    ensures Overhang(n, w, hs) == 0
  {
    if hs != [] {
      ClearHasNone(n, w, hs[..|hs| - 1]);
    }
  }

  /** No interval ends later than the last of separate ones. */
  lemma LastEndsLast(vs: seq<Iv>)
    requires Separate(vs) && Strict(vs) && vs != []
    ensures forall i :: 0 <= i < |vs| ==> vs[i].e <= vs[|vs| - 1].e
  {
    var z := |vs| - 1;
    forall i | 0 <= i < z
      ensures vs[i].e <= vs[z].e
    {
      assert vs[i].e < vs[z].s < vs[z].e;
    }
  }

  /** Two lists of intervals that cover the same positions end at the same position. */
  lemma SameEnd(us: seq<Iv>, vs: seq<Iv>, end: int)
    requires Strict(us) && Strict(vs) && us != [] && Separate(vs) && vs != []
    requires forall x :: In(us, x) <==> In(vs, x)
    requires (forall i :: 0 <= i < |us| ==> us[i].e <= end) && exists i :: 0 <= i < |us| && us[i].e == end
    ensures vs[|vs| - 1].e == end
  {
    var z := |vs| - 1;
    LastEndsLast(vs);
    var i :| 0 <= i < |us| && us[i].e == end;
    assert us[i].s <= end - 1 < us[i].e;
    assert In(us, end - 1);
    assert vs[z].s <= vs[z].e - 1 < vs[z].e;
    assert In(vs, vs[z].e - 1);
  }

  /** The rotated holes reach as far past the offset as the table does. */
  lemma RotatedEnd(n: nat, w: nat, hs: seq<Span>)
    requires w < n && AllOnRing(n, hs) && !Clear(n, w, hs)
    ensures AllOnRing(n, Rotate(w, hs))
    ensures var us := ToIvs(n, w, Rotate(w, hs));
            && (forall i :: 0 <= i < |us| ==> us[i].e <= n + Overhang(n, w, hs))
            && exists i :: 0 <= i < |us| && us[i].e == n + Overhang(n, w, hs)
  {
    var r := Rotate(w, hs);
    RotateKeeps(n, w, hs);
    OverhangIs(n, w, hs);
    hide Rotate, Reaches, Clear, Overhang;
    var us := ToIvs(n, w, r);
    forall i | 0 <= i < |us|
      ensures us[i].e <= n + Overhang(n, w, hs)
    {
      EndFromHere(n, w, hs[Origin(w, hs, i)]);
    }
    var j :| 0 <= j < |hs| && Reaches(n, w, hs[j]) && Fwd(n, w, hs[j].end) == Overhang(n, w, hs);
    EndFromHere(n, w, hs[j]);
    assert us[RingGeometry.Place(w, hs, j)].e == n + Overhang(n, w, hs);
  }

  /** The merged intervals cover what the rotated ones do and end where they end. */
  lemma MergedEnd(n: nat, us: seq<Iv>, end: int)
    requires Ascending(us) && Proper(us, 2 * n) && Strict(us)
    requires (forall i :: 0 <= i < |us| ==> us[i].e <= end) && exists i :: 0 <= i < |us| && us[i].e == end
    ensures var vs := MergeIv(us);
            Strict(vs) && Separate(vs) && vs != [] && vs[|vs| - 1].e == end
  {
    MergeStrict(us);
    MergeKeeps(us, 2 * n);
    hide MergeIv;
    forall x
      ensures In(us, x) <==> In(MergeIv(us), x)
    {
      MergeCovers(us, 2 * n, x);
    }
    SameEnd(us, MergeIv(us), end);
  }

  // --------------------------------------------------------- no byte is skipped in vain

  /** None of the t bytes that follow q after w is in a hole. */
  ghost predicate Vacant(n: nat, w: nat, hs: seq<Span>, q: nat, t: nat)
    requires w < n && AllOnRing(n, hs)
  {
    forall k: nat :: q <= k < q + t && k < n ==> !InHole(n, hs, Adv(n, w, k))
  }

  /** From any position before gap i a gap that is too small, or an interval, is in the way. */
  lemma {:induction false} SomethingBefore(n: nat, vs: seq<Iv>, t: nat, i: nat, q: nat) returns (k: nat)
    requires Separate(vs) && Strict(vs) && (forall j :: 0 <= j < |vs| ==> vs[j].e < n)
    requires i <= |vs| && q < Gap(vs, i) && 0 < t && forall j :: 0 <= j < i ==> !Opens(n, vs, j, t)
    ensures q <= k < q + t && k < n && In(vs, k)
  {
    if q < Gap(vs, i - 1) {
      k := SomethingBefore(n, vs, t, i - 1, q);
    } else {
      k := if vs[i - 1].s <= q then q else vs[i - 1].s;
      assert !Opens(n, vs, i - 1, t);
      assert vs[i - 1].s <= k < vs[i - 1].e;
    }
  }

  /** From a clear offset the jump goes no further than it must: from every position before
      its landing the bytes would meet a hole. */
  lemma LeapIsLeast(n: nat, w: nat, hs: seq<Span>, t: nat, q: nat)
    requires w < n && AllOnRing(n, hs) && SortedByStart(hs) && Clear(n, w, hs) && NonEmpty(hs) && 0 < t < n
    requires q < Leap(n, w, hs, t)
    ensures !Vacant(n, w, hs, q, t)
  {
    var ms := SortMerge(n, w, hs);
    var vs := ToIvs(n, w, ms);
    ClearIsFree(n, w, hs);
    SortMergeStrict(n, w, hs, Adv(n, w, n - 1));
    MergedClear(n, w, hs);
    JumpLands(n, w, ms, t);
    hide SortMerge, Jump, Separate, FirstOpen, Clear, NonEmpty, Strict, InHole, Opens, Rotate;
    LandsInside(n, vs, t);
    var k := SomethingBefore(n, vs, t, FirstOpen(n, vs, t, 0), q);
    AdvSmall(n, w, k);
    InFromHere(n, w, ms, Adv(n, w, k));
  }

  lemma LandsInside(n: nat, vs: seq<Iv>, t: nat)
    requires forall i :: 0 <= i < |vs| ==> vs[i].e < n
    requires n > 0
    ensures Landing(n, vs, t) == Gap(vs, FirstOpen(n, vs, t, 0))
    ensures forall j :: 0 <= j < FirstOpen(n, vs, t, 0) ==> !Opens(n, vs, j, t)
  {
  }

  /** At a clear offset a request is granted exactly when there are, within what is writable,
      as many bytes in a row as it needs, alignment included, that are in no hole; and it is
      given the first of these places. */
  lemma GrantedWhereVacant(n: nat, w: nat, cs: seq<Consumer>, hs: seq<Span>, size: nat, align: nat, blocking: bool, written: bool)
    requires RingOk(n, w, cs, hs) && Clear(n, w, hs) && NonEmpty(hs) && 0 < size && align <= 4096
    requires !(blocking && written && NobodyInstalled(cs))
    ensures var r, t := Request(n, w, cs, hs, size, align, blocking, written), size + align;
            && (r.Granted? <==> exists q: nat :: Vacant(n, w, hs, q, t) && q + t < MinWritable(n, w, cs))
            && (r.Granted? ==> Vacant(n, w, hs, r.skip, t) && forall q: nat :: q < r.skip ==> !Vacant(n, w, hs, q, t))
  {
    hide Leap, Adv, InHole, Clear, Vacant, MinWritable, NonEmpty, SortedByStart, Place;
    var r, t := Request(n, w, cs, hs, size, align, blocking, written), size + align;
    GrantedExactly(n, w, cs, hs, size, align, blocking, written);
    if r.Granted? {
      RoomIsEnough(n, w, cs, Skip(n, w, hs, size, align), size, align);
    }
    if t < n {
      LeastVacant(n, w, hs, t);
    }
  }

  lemma LeastVacant(n: nat, w: nat, hs: seq<Span>, t: nat)
    requires w < n && AllOnRing(n, hs) && SortedByStart(hs) && Clear(n, w, hs) && NonEmpty(hs) && 0 < t < n
    ensures Leap(n, w, hs, t) + t <= n ==> Vacant(n, w, hs, Leap(n, w, hs, t), t)
    ensures forall q: nat :: q < Leap(n, w, hs, t) ==> !Vacant(n, w, hs, q, t)
  {
    hide Leap, Adv, InHole, Clear, NonEmpty, SortedByStart;
    if Leap(n, w, hs, t) + t <= n {
      forall k: nat | Leap(n, w, hs, t) <= k < Leap(n, w, hs, t) + t && k < n
        ensures !InHole(n, hs, Adv(n, w, k))
      {
        JumpedIsFree(n, w, hs, t, k);
      }
    }
    forall q: nat | q < Leap(n, w, hs, t)
      ensures !Vacant(n, w, hs, q, t)
    {
      LeapIsLeast(n, w, hs, t, q);
    }
  }

  /** Seen from an offset that is not clear, the merged holes hang over it by exactly the
      overhang. */
  lemma MergedHangs(n: nat, w: nat, hs: seq<Span>, free: nat)
    requires w < n && free < n && AllOnRing(n, hs) && SortedByStart(hs) && NonEmpty(hs)
    requires !InHole(n, hs, free) && !Clear(n, w, hs)
    ensures var vs := ToIvs(n, w, SortMerge(n, w, hs));
            Hanging(n, vs) && Over(n, vs) == Overhang(n, w, hs)
  {
    hide SortMerge, Rotate, MergeIv, InHole, FreeAt, Overhang, Clear, NonEmpty, Strict, Separate, Ascending, Proper;
    var r := Rotate(w, hs);
    RotateKeeps(n, w, hs);
    RotatedEnd(n, w, hs);
    SortMergeFromHere(n, w, hs, free);
    StrictFromHere(n, w, r);
    MergedEnd(n, ToIvs(n, w, r), n + Overhang(n, w, hs));
    BytesAreFree(n, w, hs, free);
    HangingIs(n, ToIvs(n, w, SortMerge(n, w, hs)), Fwd(n, w, free), n + Overhang(n, w, hs));
  }

  lemma HangingIs(n: nat, vs: seq<Iv>, x: nat, end: int)
    requires Strict(vs) && Separate(vs) && vs != [] && vs[|vs| - 1].e == end >= n && x < n && FreeAt(n, vs, x)
    requires forall i :: 0 <= i < |vs| ==> vs[i].s < n
    ensures Hanging(n, vs) && Over(n, vs) == end - n
  {
  }

  // ------------------------------------------------------------- the exact condition

  /** A stretch of free positions is a run of free bytes, when the byte before w is not
      free. */
  lemma StretchIsRun(n: nat, w: nat, hs: seq<Span>, vs: seq<Iv>, len: int)
    requires w < n && AllOnRing(n, hs) && InHole(n, hs, Adv(n, w, n - 1)) && len <= n
    requires forall x: nat :: x < n ==> (InHole(n, hs, x) <==> !FreeAt(n, vs, Fwd(n, w, x)))
    ensures HasStretch(n, vs, len) <==> HasFreeRun(n, hs, len)
  {
    hide InHole, FreeAt, Fwd, Adv;
    if len <= 0 {
      assert FreeRun(n, hs, 0, len) && Stretch(n, vs, 0, len);
    } else {
      if HasStretch(n, vs, len) {
        var x: nat :| Stretch(n, vs, x, len);
        StretchGivesRun(n, w, hs, vs, x, len);
      }
      if HasFreeRun(n, hs, len) {
        var y: nat :| y < n && FreeRun(n, hs, y, len);
        RunGivesStretch(n, w, hs, vs, y, len);
      }
    }
  }

  lemma StretchGivesRun(n: nat, w: nat, hs: seq<Span>, vs: seq<Iv>, x: nat, len: int)
    requires w < n && AllOnRing(n, hs) && 0 < len && Stretch(n, vs, x, len)
    requires forall y: nat :: y < n ==> (InHole(n, hs, y) <==> !FreeAt(n, vs, Fwd(n, w, y)))
    ensures HasFreeRun(n, hs, len)
  {
    hide InHole, FreeAt;
    AdvSmall(n, w, x);
    forall k: nat | k < len
      ensures !InHole(n, hs, Adv(n, Adv(n, w, x), k))
    {
      AdvTwice(n, w, x, k);
      AdvSmall(n, w, x + k);
    }
    assert FreeRun(n, hs, Adv(n, w, x), len);
  }

  /** A run of free bytes does not pass the byte before w. */
  lemma RunInTurn(n: nat, w: nat, hs: seq<Span>, y: nat, len: int)
    requires w < n && y < n && AllOnRing(n, hs) && 0 < len && FreeRun(n, hs, y, len) && InHole(n, hs, Adv(n, w, n - 1))
    ensures Fwd(n, w, y) + len <= n
  {
    hide InHole;
    var p := Fwd(n, w, y);
    Macros(n, w, y);
    AdvTwice(n, w, p, n - 1 - p);
  }

  lemma RunGivesStretch(n: nat, w: nat, hs: seq<Span>, vs: seq<Iv>, y: nat, len: int)
    requires w < n && y < n && AllOnRing(n, hs) && 0 < len && FreeRun(n, hs, y, len) && InHole(n, hs, Adv(n, w, n - 1))
    requires forall x: nat :: x < n ==> (InHole(n, hs, x) <==> !FreeAt(n, vs, Fwd(n, w, x)))
    ensures HasStretch(n, vs, len)
  {
    hide InHole, FreeAt;
    var p := Fwd(n, w, y);
    Macros(n, w, y);
    RunInTurn(n, w, hs, y, len);
    forall k: nat | p <= k < p + len
      ensures FreeAt(n, vs, k)
    {
      AdvTwice(n, w, p, k - p);
      AdvSmall(n, w, k);
      assert !InHole(n, hs, Adv(n, y, k - p));
    }
    assert Stretch(n, vs, p, len);
  }

  /** A byte is in a hole exactly when its position is in a merged interval. */
  lemma BytesAreFree(n: nat, w: nat, hs: seq<Span>, free: nat)
    requires w < n && free < n && AllOnRing(n, hs) && SortedByStart(hs) && !InHole(n, hs, free)
    ensures var vs := ToIvs(n, w, SortMerge(n, w, hs));
            forall x: nat :: x < n ==> (InHole(n, hs, x) <==> !FreeAt(n, vs, Fwd(n, w, x)))
  {
    var ms := SortMerge(n, w, hs);
    SortMergeKeepsBytes(n, w, hs, free);
    hide SortMerge, InHole, FreeAt, ToIvs, Fwd, Separate;
    forall x: nat | x < n
      ensures InHole(n, hs, x) <==> !FreeAt(n, ToIvs(n, w, ms), Fwd(n, w, x))
    {
      InFromHere(n, w, ms, x);
    }
  }

  /** Leap is the landing of the loop. */
  lemma LandsLikeLeap(n: nat, w: nat, hs: seq<Span>, free: nat)
    requires w < n && free < n && AllOnRing(n, hs) && SortedByStart(hs) && !InHole(n, hs, free)
    ensures var vs := ToIvs(n, w, SortMerge(n, w, hs));
            forall t: nat :: 0 < t < n ==> Leap(n, w, hs, t) == Landing(n, vs, t)
  {
    var ms := SortMerge(n, w, hs);
    SortMergeKeepsBytes(n, w, hs, free);
    hide SortMerge, InHole, Landing, Jump, ToIvs, Separate;
    forall t: nat | 0 < t < n
      ensures Leap(n, w, hs, t) == Landing(n, ToIvs(n, w, ms), t)
    {
      JumpLands(n, w, ms, t);
    }
  }

  lemma LeapsAreLandings(n: nat, w: nat, hs: seq<Span>, vs: seq<Iv>, most: nat)
    requires w < n && AllOnRing(n, hs) && most <= n
    requires forall x: nat :: x < n ==> (InHole(n, hs, x) <==> !FreeAt(n, vs, Fwd(n, w, x)))
    requires forall t: nat :: 0 < t < n ==> Leap(n, w, hs, t) == Landing(n, vs, t)
    requires forall t: nat :: 0 < t ==> Landing(n, vs, t) >= 0
    ensures LeapsFree(n, w, hs, most) <==> AllLand(n, vs, most)
  {
    hide InHole, FreeAt, Leap, Landing;
    forall k: nat | k < n
      ensures InHole(n, hs, Adv(n, w, k)) <==> !FreeAt(n, vs, k)
    {
      AdvSmall(n, w, k);
    }
    hide Adv;
  }

  lemma LandingsInTurn(n: nat, vs: seq<Iv>)
    requires Hanging(n, vs)
    ensures forall t: nat :: Landing(n, vs, t) >= 0
  {
    hide Hanging;
    forall t: nat
      ensures Landing(n, vs, t) >= 0
    {
      GapsInTurn(n, vs, FirstOpen(n, vs, t, 0));
    }
  }

  lemma MoreThanOne(n: nat, w: nat, hs: seq<Span>, free: nat)
    requires w < n && free < n && AllOnRing(n, hs) && !InHole(n, hs, free) && !Clear(n, w, hs)
    ensures n > 1
  {
    ClearIsFree(n, w, hs);
  }

  /** One byte would go to a free place, or has no room there. */
  ghost predicate OneByteIsSafe(n: nat, w: nat, hs: seq<Span>, most: nat)
    requires w < n && AllOnRing(n, hs)
  {
    Leap(n, w, hs, 1) + 1 >= most || !InHole(n, hs, Adv(n, w, Leap(n, w, hs, 1)))
  }

  /** The jump, from positions to bytes. */
  lemma LeapsExactly(n: nat, w: nat, hs: seq<Span>, most: nat, free: nat)
    requires w < n && free < n && AllOnRing(n, hs) && SortedByStart(hs) && NonEmpty(hs) && most <= n
    requires !InHole(n, hs, free) && !Clear(n, w, hs)
    ensures LeapsFree(n, w, hs, most)
       <==> OneByteIsSafe(n, w, hs, most) && HasFreeRun(n, hs, most - 1 - Overhang(n, w, hs))
  {
    hide Leap, Clear, InHole, Adv, FreeAt, Overhang, Hanging, SortMerge, ToIvs, Landing, NonEmpty, LeapsFree, AllLand, HasFreeRun, HasStretch, Fwd;
    var vs := ToIvs(n, w, SortMerge(n, w, hs));
    MoreThanOne(n, w, hs, free);
    MergedHangs(n, w, hs, free);
    BytesAreFree(n, w, hs, free);
    LandsLikeLeap(n, w, hs, free);
    ClearIsFree(n, w, hs);
    LandingsInTurn(n, vs);
    StretchIsRun(n, w, hs, vs, most - 1 - Overhang(n, w, hs));
    LeapsAreLandings(n, w, hs, vs, most);
    AllLandExactly(n, vs, most);
    AdvSmall(n, w, Leap(n, w, hs, 1));
  }

  /** The least room any request needs, the jump over the holes included. */
  function LeastRoom(n: nat, w: nat, hs: seq<Span>): nat
    requires w < n && AllOnRing(n, hs)
  {
    LeastNeed(n, w, w, SortMerge(n, w, hs), 1)
  }

  /** Nothing can be granted exactly when that much is not writable. */
  lemma NothingGrantedExactly(n: nat, w: nat, cs: seq<Consumer>, hs: seq<Span>)
    requires w < n && ReadersOnRing(n, cs) && AllOnRing(n, hs)
    ensures NothingGranted(n, w, cs, hs) <==> LeastRoom(n, w, hs) >= MinWritable(n, w, cs)
  {
    var most := MinWritable(n, w, cs);
    LeastNeedExactly(n, w, w, SortMerge(n, w, hs), 1, most);
    hide LeastNeed, SortMerge, Jump, Request, MinWritable;
    if NothingGranted(n, w, cs, hs) {
      forall t: nat | 0 < t < n
        ensures Fwd(n, w, Jump(n, w, SortMerge(n, w, hs), t)) + t >= most
      {
        PlainGrant(n, w, cs, hs, t);
        assert Leap(n, w, hs, t) + t >= most;
      }
    } else {
      var size: nat, align: nat :| GrantAt(n, w, cs, hs, size, align);
      GrantFacts(n, w, cs, hs, size, align, false, true);
      assert Leap(n, w, hs, size + align) + (size + align) < most <= n;
    }
  }

  /** Every byte is in some hole. */
  ghost predicate AllCovered(n: nat, hs: seq<Span>)
    requires AllOnRing(n, hs)
  {
    forall x: nat :: x < n ==> InHole(n, hs, x)
  }

  /** Then no grant is free, so that all are only if there are none. */
  lemma FullRing(n: nat, w: nat, cs: seq<Consumer>, hs: seq<Span>)
    requires w < n && ReadersOnRing(n, cs) && AllOnRing(n, hs) && AllCovered(n, hs)
    ensures GrantsFree(n, w, cs, hs) <==> LeastRoom(n, w, hs) >= MinWritable(n, w, cs)
  {
    NothingGrantedExactly(n, w, cs, hs);
    hide Request, InHole, LeastRoom, MinWritable;
    if !NothingGranted(n, w, cs, hs) {
      var size: nat, align: nat :| GrantAt(n, w, cs, hs, size, align);
      GrantFacts(n, w, cs, hs, size, align, false, true);
      assert InHole(n, hs, GrantedByte(n, w, cs, hs, size, align, 0));
    }
  }

  lemma ClearGrants(n: nat, w: nat, cs: seq<Consumer>, hs: seq<Span>)
    requires RingOk(n, w, cs, hs) && Clear(n, w, hs)
    ensures GrantsFree(n, w, cs, hs)
  {
    hide Request, InHole, Clear;
    forall size: nat, align: nat, k: nat | GrantAt(n, w, cs, hs, size, align) && k < size
      ensures !InHole(n, hs, GrantedByte(n, w, cs, hs, size, align, k))
    {
      GrantIsFree(n, w, cs, hs, size, align, false, true, k);
    }
  }

  /** The byte before the write offset is in no hole.  Or some byte is free, and then two
      things hold: one byte would go to a free place or has no room there, and somewhere on
      the ring as many bytes in a row are free as the readers would let be written behind
      the holes that hold the byte before the offset.  Or no byte is free, and then there
      is no room for any request. */
  ghost predicate SafeOffset(n: nat, w: nat, cs: seq<Consumer>, hs: seq<Span>)
    requires w < n && ReadersOnRing(n, cs) && AllOnRing(n, hs)
  {
    var most := MinWritable(n, w, cs);
    || Clear(n, w, hs)
    || if AllCovered(n, hs) then LeastRoom(n, w, hs) >= most
       else OneByteIsSafe(n, w, hs, most) && HasFreeRun(n, hs, most - 1 - Overhang(n, w, hs))
  }

  /** No request can be granted a byte of a hole exactly when the write offset is safe, for
      every ring, write offset, set of readers and table of holes. */
  lemma GrantsFreeExactly(n: nat, w: nat, cs: seq<Consumer>, hs: seq<Span>)
    requires RingOk(n, w, cs, hs) && NonEmpty(hs)
    ensures GrantsFree(n, w, cs, hs) <==> SafeOffset(n, w, cs, hs)
  {
    hide Leap, LeastRoom, Overhang, MinWritable, InHole, GrantsFree, OneByteIsSafe, HasFreeRun, Adv;
    if Clear(n, w, hs) {
      ClearGrants(n, w, cs, hs);
    } else if AllCovered(n, hs) {
      FullRing(n, w, cs, hs);
    } else {
      var free: nat :| free < n && !InHole(n, hs, free);
      GrantsAreLeaps(n, w, cs, hs);
      LeapsExactly(n, w, hs, MinWritable(n, w, cs), free);
    }
  }
}
