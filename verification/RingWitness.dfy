/** Three runs of the ring, from a ring with nothing written, that each end with a request
    granted bytes of a frame a consumer still holds: one for each way in which the byte
    before the write offset can end up in a hole. */
module RingWitness {
  import opened RingGeometry
  import opened RingJump
  import opened RingAlloc
  import opened RingTable
  import opened RingRuns

  const N: nat := 4096

  /** A consumer that holds nothing. */
  function Idle(name: string, offset: nat, index: nat): Consumer {
    Consumer(name, offset, index, index, index, Free, false, false)
  }

  function Holder(name: string, offset: nat, index: nat): Consumer {
    Consumer(name, offset, index, index, index, Holding, false, false)
  }

  function Overtaken(name: string, offset: nat, index: nat): Consumer {
    Consumer(name, offset, index, index, index, Blocked, true, true)
  }

  function Blank(): (f: seq<Frame>)
    ensures |f| == 896
  {
    seq(896, i => Frame(0, 0))
  }

  /** A ring of one page with two consumers. */
  function Start(): Ring {
    Ring(N, Shared([Idle("a", 0, 0), Idle("b", 0, 0)], []), Blank(), 0, 0, false, 0, 0)
  }

  lemma StartIsFresh()
    ensures Fresh(Start()) && Sound(Start())
  {
    FreshSound(Start());
  }

  // ------------------------------------------------------------------ making a run

  lemma Extend(calls: seq<Call>, call: Call) returns (more: seq<Call>)
    requires Sound(Start())
    requires CallOk(RunCalls(Start(), calls), call)
    ensures RunCalls(Start(), more) == After(RunCalls(Start(), calls), call) && more == calls + [call]
  {
    more := calls + [call];
    assert more[..|calls|] == calls;
  }

  predicate NoReset(calls: seq<Call>) {
    Table(ResetAll) !in calls
  }

  predicate NoDiscard(calls: seq<Call>) {
    CommitWrite(0) !in calls
  }

  predicate NoOvertaking(calls: seq<Call>) {
    forall call :: call in calls ==> !(call.Table? && call.op.MoveBlocker?)
  }

  predicate Plain(calls: seq<Call>) {
    NoReset(calls) && NoDiscard(calls) && NoOvertaking(calls)
  }

  lemma PlainMore(calls: seq<Call>, more: seq<Call>)
    requires Plain(calls) && Plain(more)
    ensures Plain(calls + more)
  {
  }

  /** The byte before the write offset is in no hole after those calls. */
  ghost predicate ClearAfterCalls(calls: seq<Call>)
    requires Sound(Start())
  {
    ClearRing(RunCalls(Start(), calls))
  }

  /** The ring after a frame of that size has been written. */
  function Written(r: Ring, size: nat): Ring
    requires Fit(r)
  {
    r.(frames := r.frames[r.index := Frame(r.offset, size)], index := (r.index + 1) % |r.frames|,
       offset := Adv(r.n, r.offset, size), written := true)
  }

  lemma NoHolesNoLeap(n: nat, w: nat, t: nat)
    requires w < n
    ensures Leap(n, w, [], t) == 0
  {
    assert SortMerge(n, w, []) == [];
  }

  /** A request without alignment goes right behind the jump when there is room. */
  lemma GrantedPlain(r: Ring, t: nat, skip: nat)
    requires Fit(r) && 0 < t && Leap(r.n, r.offset, Holes(r), t) == skip
    ensures skip + t < MinWritable(r.n, r.offset, r.shared.users) ==> Asked(r, t, 0, false) == Granted(skip, 0)
    ensures skip + t >= MinWritable(r.n, r.offset, r.shared.users) ==> !Asked(r, t, 0, false).Granted?
  {
    hide Leap, MinWritable;
    GrantedExactly(r.n, r.offset, r.shared.users, Holes(r), t, 0, false, r.written);
    if skip + t < MinWritable(r.n, r.offset, r.shared.users) {
      RoomIsEnough(r.n, r.offset, r.shared.users, skip, t, 0);
    }
  }

  lemma MinOfTwo(w: nat, a: Consumer, b: Consumer)
    requires w < N && a.offset < N && b.offset < N && Installed(a) && Installed(b)
    ensures var x, y := Writable(N, w, a.offset), Writable(N, w, b.offset);
            MinWritable(N, w, [a, b]) == if y < x then y else x
  {
    assert [a, b][..1] == [a] && [a][..0] == [];
    assert MinWritable(N, w, []) == N;
    assert MinWritable(N, w, [a]) == Writable(N, w, a.offset);
  }

  /** A frame is requested and committed while the table is empty. */
  lemma Write(calls: seq<Call>, size: nat) returns (more: seq<Call>)
    requires Sound(Start())
    requires var r := RunCalls(Start(), calls);
             && r.shared.table == [] && r.last == 0 && r.pad == 0 && 0 < size < MinWritable(r.n, r.offset, r.shared.users)
    ensures RunCalls(Start(), more) == Written(RunCalls(Start(), calls), size)
    ensures Plain(calls) ==> Plain(more)
  {
    if Plain(calls) {
      PlainMore(calls, [RequestWrite(size, 0, false), CommitWrite(size)]);
    }
    hide Plain, RunCalls, MinWritable, Adv, After, Sound, Fit;
    var r := RunCalls(Start(), calls);
    RequestStep(r, size);
    more := Extend(calls, RequestWrite(size, 0, false));
    CommitStep(r, size);
    more := Extend(more, CommitWrite(size));
    assert more == calls + [RequestWrite(size, 0, false), CommitWrite(size)];
  }

  lemma RequestStep(r: Ring, size: nat)
    requires Sound(r) && r.shared.table == [] && 0 < size < MinWritable(r.n, r.offset, r.shared.users) && r.pad == 0
    ensures CallOk(r, RequestWrite(size, 0, false)) && After(r, RequestWrite(size, 0, false)) == r.(last := size)
  {
    hide MinWritable;
    NoHolesNoLeap(r.n, r.offset, size);
    assert Holes(r) == [];
    GrantedPlain(r, size, 0);
    AdvSmall(r.n, r.offset, 0);
  }

  lemma CommitStep(r: Ring, size: nat)
    requires Sound(r) && r.last == 0 && r.pad == 0 && 0 < size
    ensures var t := r.(last := size);
            Fit(t) && CallOk(t, CommitWrite(size)) && After(t, CommitWrite(size)) == Written(r, size)
  {
    AdvSmall(r.n, r.offset, 0);
  }

  /** A consumer that holds nothing reads one frame, while the table is empty. */
  function Reading(r: Ring, user: nat, frame: nat): Ring
    requires user < |r.shared.users| && frame < |r.frames|
  {
    r.(shared := Shared(r.shared.users[user := Holder(r.shared.users[user].name, r.frames[frame].offset, frame)], r.shared.table))
  }

  lemma Read(calls: seq<Call>, user: nat, frame: nat) returns (more: seq<Call>)
    requires Sound(Start())
    requires var r := RunCalls(Start(), calls);
             && r.shared.table == [] && UserOk(r.shared, user) && frame < |r.frames| && Readable(r, frame, frame)
    ensures RunCalls(Start(), more) == Reading(RunCalls(Start(), calls), user, frame)
    ensures more == calls + [Table(RequestRead(user, frame, frame))]
  {
    hide RunCalls, Readable;
    more := Extend(calls, Table(RequestRead(user, frame, frame)));
  }

  /** The producer moves a consumer that holds a frame, or one it has moved before, to
      another frame; table is the table after that. */
  lemma Overtakes(calls: seq<Call>, user: nat, frame: nat, table: seq<Hole>) returns (more: seq<Call>)
    requires Sound(Start())
    requires var r := RunCalls(Start(), calls);
             && UserOk(r.shared, user) && frame < |r.frames| && !r.shared.users[user].state.Free?
             && if r.shared.users[user].state.Holding?
                then Insert(r.shared.table, Hole(Held(r, user), r.shared.users[user].name)) == Done(table)
                else table == r.shared.table
    ensures var r := RunCalls(Start(), calls);
            RunCalls(Start(), more)
            == r.(shared := Shared(r.shared.users[user := Overtaken(r.shared.users[user].name, r.frames[frame].offset, frame)], table))
    ensures more == calls + [Table(MoveBlocker(user, frame, true))]
  {
    hide RunCalls, Insert, HeldSpan;
    more := Extend(calls, Table(MoveBlocker(user, frame, true)));
  }

  // -------------------------------------------------------------- two holes and a jump

  lemma MergeOne(n: nat, a: Span)
    requires OnRing(n, a)
    ensures Merge(n, [a]) == [a]
  {
    assert [a][..0] == [];
  }

  lemma MergeTwo(n: nat, a: Span, b: Span)
    requires OnRing(n, a) && OnRing(n, b) && Fwd(n, a.start, b.start) > Length(n, a)
    ensures Merge(n, [a, b]) == [a, b]
  {
    MergeOne(n, a);
    assert [a, b][..1] == [a];
  }

  /** The jump over one hole. */
  lemma LeapOne(n: nat, w: nat, a: Span, t: nat)
    requires w < n && OnRing(n, a)
    ensures Leap(n, w, [a], t) == if Stops(w, Adv(n, w, t), a) then 0 else Fwd(n, w, a.end)
  {
    hide Stops, Adv, Merge, Fwd;
    assert Rotate(w, [a]) == [a];
    MergeOne(n, a);
    assert [a][1..] == [];
    assert Jump(n, a.end, [], t) == a.end;
    SelfFwd(n, w);
  }

  lemma SelfFwd(n: nat, w: nat)
    requires w < n
    ensures Fwd(n, w, w) == 0
  {
  }

  /** The jump over two holes, first the one nearer to the offset. */
  lemma LeapTwo(n: nat, w: nat, hs: seq<Span>, a: Span, b: Span, t: nat)
    requires w < n && AllOnRing(n, hs) && Rotate(w, hs) == [a, b] && OnRing(n, a) && OnRing(n, b)
    requires Fwd(n, a.start, b.start) > Length(n, a)
    ensures Leap(n, w, hs, t) == if Stops(w, Adv(n, w, t), a) then 0
                                 else if Stops(a.end, Adv(n, a.end, t), b) then Fwd(n, w, a.end) else Fwd(n, w, b.end)
  {
    hide Stops, Adv, Merge, Rotate, Fwd;
    MergeTwo(n, a, b);
    assert [a, b][1..] == [b] && [b][1..] == [];
    assert Jump(n, b.end, [], t) == b.end;
    assert Jump(n, a.end, [b], t) == if Stops(a.end, Adv(n, a.end, t), b) then a.end else b.end;
    SelfFwd(n, w);
  }

  lemma RotateTwo(w: nat, a: Span, b: Span)
    ensures a.start >= w ==> Rotate(w, [a, b]) == [a, b]
    ensures a.start < w && b.start < w ==> Rotate(w, [a, b]) == [a, b]
    ensures a.start < w <= b.start ==> Rotate(w, [a, b]) == [b, a]
  {
    assert [a, b][1..] == [b] && [b][1..] == [];
    assert [a, b][..1] == [a] && [a, b][2..] == [] && [a, b][..2] == [a, b];
  }

  lemma SpansOfTwo(a: Hole, b: Hole)
    ensures Spans([a, b]) == [a.span, b.span] && Spans([a]) == [a.span] && Spans([]) == []
  {
  }

  /** A grant of t bytes without padding overlaps a hole. */
  ghost predicate Overlaps(r: Ring, t: nat) {
    && Fit(r) && Asked(r, t, 0, false) == Granted(0, 0)
    && exists k: nat :: k < t && InHole(r.n, Holes(r), Adv(r.n, r.offset, k))
  }

  lemma OverlapAt(r: Ring, t: nat, k: nat, i: nat)
    requires Fit(r) && Asked(r, t, 0, false) == Granted(0, 0) && k < t && i < |r.shared.table|
    requires Covers(r.n, r.shared.table[i].span, Adv(r.n, r.offset, k))
    ensures Overlaps(r, t)
  {
    assert Covers(r.n, Holes(r)[i], Adv(r.n, r.offset, k));
  }

  // ------------------------------------------- the consumer of the newest frame is moved

  /** Four frames end at 4000; a holds bytes [40, 50) and b the newest frame, [3000, 4000).
      One call of RequestWriteFrame for 3000 bytes, not blocking: the first try is refused
      and a is moved to the newest frame; the second is refused, and both are moved there;
      the third is granted bytes from 4000 on, right through the frame a holds. */
  lemma NewestHeldOverlaps() returns (calls: seq<Call>)
    ensures Sound(Start()) && Overlaps(RunCalls(Start(), calls), 3000) && NoReset(calls) && NoDiscard(calls)
    ensures calls != [] && calls[|calls| - 1] == Table(MoveBlocker(1, 3, true)) && ClearAfterCalls(calls[..|calls| - 1])
  {
    StartIsFresh();
    hide RunCalls, Sound, Fit, Overlaps;
    hide ClearAfterCalls;
    calls := FourFrames();
    calls := HoldBoth(calls);
    calls := FirstTry(calls);
    calls := SecondTry(calls);
    SoundFits(RunCalls(Start(), calls));
    ThirdTry(RunCalls(Start(), calls));
  }

  const F40 := Frame(0, 40)
  const F10 := Frame(40, 10)
  const F2950 := Frame(50, 2950)
  const F1000 := Frame(3000, 1000)

  function FourRing(): Ring {
    Start().(frames := Blank()[0 := F40][1 := F10][2 := F2950][3 := F1000], offset := 4000, index := 4, written := true)
  }

  lemma NothingCalled()
    requires Sound(Start())
    ensures RunCalls(Start(), []) == Start() && Plain([])
  {
  }

  /** What two consumers at offset 0 leave to write from w on. */
  lemma IdleRoom(w: nat)
    requires w < N
    ensures MinWritable(N, w, [Idle("a", 0, 0), Idle("b", 0, 0)]) == N - w
  {
    MinOfTwo(w, Idle("a", 0, 0), Idle("b", 0, 0));
  }

  lemma FourFrames() returns (calls: seq<Call>)
    requires Sound(Start())
    ensures RunCalls(Start(), calls) == FourRing() && Plain(calls)
  {
    hide MinWritable, Plain, RunCalls, Sound, Fit, UsersOk, FramesOk, TableOk;
    NothingCalled();
    calls := [];
    IdleRoom(0);
    calls := Write(calls, 40);
    IdleRoom(40);
    calls := Write(calls, 10);
    IdleRoom(50);
    calls := Write(calls, 2950);
    IdleRoom(3000);
    calls := Write(calls, 1000);
  }

  /** Both consumers hold a frame. */
  function HeldRing(): Ring {
    FourRing().(shared := Shared([Holder("a", 40, 1), Holder("b", 3000, 3)], []))
  }

  const HOLE_A := Hole(Span(40, 50), "a")
  const HOLE_B := Hole(Span(3000, 4000), "b")

  function AMoved(): Ring {
    FourRing().(shared := Shared([Overtaken("a", 3000, 3), Holder("b", 3000, 3)], [HOLE_A]))
  }

  function BothMoved(): Ring {
    FourRing().(shared := Shared([Overtaken("a", 3000, 3), Overtaken("b", 3000, 3)], [HOLE_A, HOLE_B]))
  }

  lemma HoldBoth(calls: seq<Call>) returns (more: seq<Call>)
    requires Sound(Start()) && RunCalls(Start(), calls) == FourRing()
    ensures RunCalls(Start(), more) == HeldRing() && (Plain(calls) ==> Plain(more))
  {
    hide RunCalls, Sound;
    more := Read(calls, 0, 1);
    more := Read(more, 1, 3);
    assert [Idle("a", 0, 0), Idle("b", 0, 0)][0 := Holder("a", 40, 1)][1 := Holder("b", 3000, 3)] == [Holder("a", 40, 1), Holder("b", 3000, 3)];
  }

  /** A request that is refused changes nothing. */
  lemma Refuse(calls: seq<Call>, size: nat, skip: nat) returns (more: seq<Call>)
    requires Sound(Start()) && 0 < size
    requires var r := RunCalls(Start(), calls);
             && Leap(r.n, r.offset, Holes(r), size) == skip && skip + size >= MinWritable(r.n, r.offset, r.shared.users)
    ensures RunCalls(Start(), more) == RunCalls(Start(), calls) && more == calls + [RequestWrite(size, 0, false)]
  {
    hide RunCalls, Leap, MinWritable;
    GrantedPlain(RunCalls(Start(), calls), size, skip);
    more := Extend(calls, RequestWrite(size, 0, false));
  }

  lemma SoundFits(r: Ring)
    requires Sound(r)
    ensures Fit(r)
  {
  }

  lemma FirstTry(calls: seq<Call>) returns (more: seq<Call>)
    requires Sound(Start()) && RunCalls(Start(), calls) == HeldRing()
    ensures RunCalls(Start(), more) == AMoved()
    ensures (NoReset(calls) ==> NoReset(more)) && (NoDiscard(calls) ==> NoDiscard(more))
  {
    hide RunCalls, Sound;
    NoHolesNoLeap(N, 4000, 3000);
    assert Holes(HeldRing()) == [];
    MinOfTwo(4000, Holder("a", 40, 1), Holder("b", 3000, 3));
    more := Refuse(calls, 3000, 0);
    AdvSmall(N, 40, 10);
    more := Overtakes(more, 0, 3, [HOLE_A]);
    assert HeldRing().shared.users[0 := Overtaken("a", 3000, 3)] == AMoved().shared.users;
  }

  lemma SecondTry(calls: seq<Call>) returns (more: seq<Call>)
    requires Sound(Start()) && RunCalls(Start(), calls) == AMoved()
    ensures RunCalls(Start(), more) == BothMoved()
    ensures (NoReset(calls) ==> NoReset(more)) && (NoDiscard(calls) ==> NoDiscard(more))
    ensures more != [] && more[|more| - 1] == Table(MoveBlocker(1, 3, true)) && ClearAfterCalls(more[..|more| - 1])
  {
    hide RunCalls, Sound;
    SpansOfTwo(HOLE_A, HOLE_B);
    LeapOne(N, 4000, HOLE_A.span, 3000);
    MinOfTwo(4000, Overtaken("a", 3000, 3), Holder("b", 3000, 3));
    more := Refuse(calls, 3000, 146);
    more := Overtakes(more, 0, 3, [HOLE_A]);
    assert AMoved().shared.users[0 := Overtaken("a", 3000, 3)] == AMoved().shared.users;
    AdvSmall(N, 3000, 1000);
    InsertSecond();
    ghost var front := more;
    assert ClearAfterCalls(front);
    hide ClearAfterCalls;
    more := Overtakes(more, 1, 3, [HOLE_A, HOLE_B]);
    assert more[..|more| - 1] == front;
    assert AMoved().shared.users[1 := Overtaken("b", 3000, 3)] == BothMoved().shared.users;
  }

  lemma InsertSecond()
    ensures Insert([HOLE_A], HOLE_B) == Done([HOLE_A, HOLE_B])
  {
    assert [HOLE_A][1..] == [];
    assert Insert([], HOLE_B) == Done([HOLE_B]);
  }

  lemma ThirdTry(r: Ring)
    requires r == BothMoved() && Fit(r)
    ensures Overlaps(r, 3000)
  {
    SpansOfTwo(HOLE_A, HOLE_B);
    RotateTwo(4000, HOLE_A.span, HOLE_B.span);
    LeapTwo(N, 4000, [HOLE_A.span, HOLE_B.span], HOLE_A.span, HOLE_B.span, 3000);
    MinOfTwo(4000, Overtaken("a", 3000, 3), Overtaken("b", 3000, 3));
    hide Leap, MinWritable;
    GrantedPlain(r, 3000, 0);
    OverlapAt(r, 3000, 136, 0);
  }

  // -------------------------------------------------------------------------- a reset

  const F20 := Frame(0, 20)
  const F30 := Frame(20, 10)
  const F4060 := Frame(30, 4060)
  const F16 := Frame(4090, 16)

  /** The last frame goes round the end of the ring; a holds it, and b bytes [20, 30).  A
      reset puts the offset at 0, inside what a holds, and the next request is granted it. */
  lemma ResetOverlaps() returns (calls: seq<Call>)
    ensures Sound(Start()) && Overlaps(RunCalls(Start(), calls), 15) && NoDiscard(calls) && NoOvertaking(calls)
    ensures calls != [] && calls[|calls| - 1] == Table(ResetAll) && ClearAfterCalls(calls[..|calls| - 1])
  {
    StartIsFresh();
    hide RunCalls, Sound, Fit, Overlaps, ClearAfterCalls;
    calls := ThreeFrames();
    calls := LastFrame(calls);
    calls := ReadAndReset(calls);
    SoundFits(RunCalls(Start(), calls));
    AfterReset(RunCalls(Start(), calls));
  }

  function ThreeRing(): Ring {
    Start().(frames := Blank()[0 := F20][1 := F30][2 := F4060], offset := 4090, index := 3, written := true)
  }

  lemma ThreeFrames() returns (calls: seq<Call>)
    requires Sound(Start())
    ensures RunCalls(Start(), calls) == ThreeRing() && Plain(calls)
  {
    hide MinWritable, Plain, RunCalls, Sound, Fit, UsersOk, FramesOk, TableOk;
    NothingCalled();
    calls := [];
    IdleRoom(0);
    calls := Write(calls, 20);
    IdleRoom(20);
    calls := Write(calls, 10);
    IdleRoom(30);
    calls := Write(calls, 4060);
  }

  function LastRing(): Ring {
    ThreeRing().(frames := ThreeRing().frames[3 := F16], offset := 10, index := 4,
                 shared := Shared([Idle("a", 30, 2), Holder("b", 20, 1)], []))
  }

  lemma LastFrame(calls: seq<Call>) returns (more: seq<Call>)
    requires Sound(Start()) && RunCalls(Start(), calls) == ThreeRing()
    ensures RunCalls(Start(), more) == LastRing() && (Plain(calls) ==> Plain(more))
  {
    hide RunCalls, Sound, MinWritable;
    more := Read(calls, 0, 1);
    AdvSmall(N, 20, 10);
    more := Extend(more, Table(CommitRead(0, 10)));
    more := Read(more, 1, 1);
    assert [Idle("a", 0, 0), Idle("b", 0, 0)][0 := Holder("a", 20, 1)][0 := Idle("a", 30, 2)][1 := Holder("b", 20, 1)]
        == LastRing().shared.users;
    MinOfTwo(4090, Idle("a", 30, 2), Holder("b", 20, 1));
    AdvSmall(N, 4090, 16);
    more := Write(more, 16);
  }

  const HOLE_LOW := Hole(Span(20, 30), "b")
  const HOLE_ROUND := Hole(Span(4090, 10), "a")

  function ResetRing(): Ring {
    LastRing().(shared := Shared([Overtaken("a", 0, 0), Overtaken("b", 0, 0)], [HOLE_LOW, HOLE_ROUND]),
                offset := 0, index := 0, written := false)
  }

  lemma ReadAndReset(calls: seq<Call>) returns (more: seq<Call>)
    requires Sound(Start()) && RunCalls(Start(), calls) == LastRing()
    ensures RunCalls(Start(), more) == ResetRing()
    ensures (NoDiscard(calls) ==> NoDiscard(more)) && (NoOvertaking(calls) ==> NoOvertaking(more))
    ensures more != [] && more[|more| - 1] == Table(ResetAll) && ClearAfterCalls(more[..|more| - 1])
  {
    hide RunCalls, Sound;
    more := Read(calls, 0, 3);
    var held := RunCalls(Start(), more);
    assert held.shared.users == [Holder("a", 4090, 3), Holder("b", 20, 1)];
    ResetsBoth(held.frames);
    ghost var front := more;
    assert ClearAfterCalls(front);
    hide ClearAfterCalls;
    more := Extend(more, Table(ResetAll));
    assert more[..|more| - 1] == front;
  }

  lemma ResetsBoth(frames: seq<Frame>)
    requires FramesOk(N, frames) && |frames| == 896 && frames[1] == F30 && frames[3] == F16
    requires UsersOk(N, frames, [Holder("a", 4090, 3), Holder("b", 20, 1)])
    ensures ResetFrom(N, frames, Shared([Holder("a", 4090, 3), Holder("b", 20, 1)], []), 0) == ResetRing().shared
  {
    var a, b := Holder("a", 4090, 3), Holder("b", 20, 1);
    var s0 := Shared([a, b], []);
    var s1 := Shared([Overtaken("a", 0, 0), b], [HOLE_ROUND]);
    AdvSmall(N, 4090, 16);
    AdvSmall(N, 20, 10);
    assert [a, b][0 := Overtaken("a", 0, 0)] == s1.users;
    assert ResetUser(N, frames, s0, 0) == s1;
    assert Insert([HOLE_ROUND], HOLE_LOW) == Done([HOLE_LOW, HOLE_ROUND]);
    assert s1.users[1 := Overtaken("b", 0, 0)] == ResetRing().shared.users;
    assert ResetUser(N, frames, s1, 1) == ResetRing().shared;
    assert ResetFrom(N, frames, s0, 0) == ResetFrom(N, frames, s1, 1) == ResetFrom(N, frames, ResetRing().shared, 2);
  }

  lemma AfterReset(r: Ring)
    requires r == ResetRing() && Fit(r)
    ensures Overlaps(r, 15)
  {
    SpansOfTwo(HOLE_LOW, HOLE_ROUND);
    RotateTwo(0, HOLE_LOW.span, HOLE_ROUND.span);
    AdvSmall(N, 0, 15);
    LeapTwo(N, 0, [HOLE_LOW.span, HOLE_ROUND.span], HOLE_LOW.span, HOLE_ROUND.span, 15);
    MinOfTwo(0, Overtaken("a", 0, 0), Overtaken("b", 0, 0));
    hide Leap, MinWritable;
    GrantedPlain(r, 15, 0);
    AdvSmall(N, 0, 0);
    OverlapAt(r, 15, 0, 1);
  }

  // -------------------------------------------------------- a request that is discarded

  /** Bytes [0, 100) and [1000, 1100) are held by consumers the producer has moved.  A request
      jumps over the first hole, to its end, and is discarded; the next one starts there. */
  lemma DiscardOverlaps() returns (calls: seq<Call>)
    ensures Sound(Start()) && Overlaps(RunCalls(Start(), calls), 3000) && NoReset(calls)
    ensures |calls| >= 2 && calls[|calls| - 2..] == [RequestWrite(200, 0, false), CommitWrite(0)]
    ensures ClearAfterCalls(calls[..|calls| - 2])
  {
    StartIsFresh();
    hide RunCalls, Sound, Fit, Overlaps, ClearAfterCalls;
    calls := FiveFrames();
    var moved := MoveTwo(calls);
    calls := JumpAndDiscard(moved);
    assert calls[..|calls| - 2] == moved;
    SoundFits(RunCalls(Start(), calls));
    AfterDiscard(RunCalls(Start(), calls));
  }

  const G0 := Frame(0, 100)
  const G1 := Frame(100, 900)
  const G2 := Frame(1000, 100)
  const G3 := Frame(1100, 2900)
  const G4 := Frame(4000, 10)

  function FiveRing(): Ring {
    Start().(frames := Blank()[0 := G0][1 := G1][2 := G2][3 := G3][4 := G4], offset := 4010, index := 5, written := true)
  }

  lemma FiveFrames() returns (calls: seq<Call>)
    requires Sound(Start())
    ensures RunCalls(Start(), calls) == FiveRing() && Plain(calls)
  {
    hide MinWritable, Plain, RunCalls, Sound, Fit, UsersOk, FramesOk, TableOk;
    NothingCalled();
    calls := [];
    IdleRoom(0);
    calls := Write(calls, 100);
    IdleRoom(100);
    calls := Write(calls, 900);
    IdleRoom(1000);
    calls := Write(calls, 100);
    IdleRoom(1100);
    calls := Write(calls, 2900);
    IdleRoom(4000);
    calls := Write(calls, 10);
  }

  const HOLE_0 := Hole(Span(0, 100), "a")
  const HOLE_1000 := Hole(Span(1000, 1100), "b")

  function TwoHoles(): Ring {
    FiveRing().(shared := Shared([Overtaken("a", 4000, 4), Overtaken("b", 4000, 4)], [HOLE_0, HOLE_1000]))
  }

  lemma MoveTwo(calls: seq<Call>) returns (more: seq<Call>)
    requires Sound(Start()) && RunCalls(Start(), calls) == FiveRing()
    ensures RunCalls(Start(), more) == TwoHoles() && (NoReset(calls) ==> NoReset(more))
  {
    hide RunCalls, Sound;
    more := Read(calls, 0, 0);
    more := Read(more, 1, 2);
    assert RunCalls(Start(), more).shared.users == [Holder("a", 0, 0), Holder("b", 1000, 2)];
    AdvSmall(N, 0, 100);
    more := Overtakes(more, 0, 4, [HOLE_0]);
    assert RunCalls(Start(), more).shared.users == [Overtaken("a", 4000, 4), Holder("b", 1000, 2)];
    AdvSmall(N, 1000, 100);
    assert [HOLE_0][1..] == [] && Insert([], HOLE_1000) == Done([HOLE_1000]);
    more := Overtakes(more, 1, 4, [HOLE_0, HOLE_1000]);
    assert RunCalls(Start(), more).shared.users == TwoHoles().shared.users;
  }

  /** The request of 200 bytes from 4010 on goes to byte 100, behind the first hole. */
  lemma JumpsOver(r: Ring)
    requires r == TwoHoles() && Fit(r)
    ensures Asked(r, 200, 0, false) == Granted(186, 0) && Adv(N, 4010, 186) == 100
  {
    SpansOfTwo(HOLE_0, HOLE_1000);
    RotateTwo(4010, HOLE_0.span, HOLE_1000.span);
    AdvSmall(N, 4010, 200);
    AdvSmall(N, 100, 200);
    AdvSmall(N, 4010, 186);
    LeapTwo(N, 4010, [HOLE_0.span, HOLE_1000.span], HOLE_0.span, HOLE_1000.span, 200);
    MinOfTwo(4010, Overtaken("a", 4000, 4), Overtaken("b", 4000, 4));
    hide Leap, MinWritable, Asked;
    GrantedPlain(r, 200, 186);
  }

  lemma TwoHolesClear()
    requires Fit(TwoHoles())
    ensures ClearRing(TwoHoles())
  {
  }

  lemma JumpAndDiscard(calls: seq<Call>) returns (more: seq<Call>)
    requires Sound(Start()) && RunCalls(Start(), calls) == TwoHoles()
    ensures RunCalls(Start(), more) == TwoHoles().(offset := 100) && ClearAfterCalls(calls)
    ensures more == calls + [RequestWrite(200, 0, false), CommitWrite(0)]
  {
    hide RunCalls, Sound, Asked, ClearRing;
    SoundFits(TwoHoles());
    TwoHolesClear();
    JumpsOver(TwoHoles());
    more := Extend(calls, RequestWrite(200, 0, false));
    more := Extend(more, CommitWrite(0));
  }

  lemma AfterDiscard(r: Ring)
    requires r == TwoHoles().(offset := 100) && Fit(r)
    ensures Overlaps(r, 3000)
  {
    SpansOfTwo(HOLE_0, HOLE_1000);
    RotateTwo(100, HOLE_0.span, HOLE_1000.span);
    AdvSmall(N, 100, 3000);
    AdvSmall(N, 1100, 3000);
    LeapTwo(N, 100, [HOLE_0.span, HOLE_1000.span], HOLE_1000.span, HOLE_0.span, 3000);
    MinOfTwo(100, Overtaken("a", 4000, 4), Overtaken("b", 4000, 4));
    hide Leap, MinWritable;
    GrantedPlain(r, 3000, 0);
    AdvSmall(N, 100, 900);
    OverlapAt(r, 3000, 900, 1);
  }
}
