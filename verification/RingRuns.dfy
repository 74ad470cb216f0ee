/** The ring as one state machine: consumer calls, the producer's moves and resets, write
    requests and commits, in any order.  When a call leaves the write offset in a place
    from which every further grant is free. */
module RingRuns {
  import opened RingGeometry
  import opened RingAlloc
  import opened RingTable

  /** The shared header, with the size of the ring, and what the producer remembers of its
      last request: how many bytes it was granted, and behind how much padding. */
  datatype Ring = Ring(n: nat, shared: Shared, frames: seq<Frame>, offset: nat, index: nat, written: bool, last: nat, pad: nat)

  datatype Call =
    | Table(op: Op)
    | RequestWrite(size: nat, align: nat, blocking: bool)
    | CommitWrite(bytes: nat)

  function Holes(r: Ring): (hs: seq<Span>)
    ensures |hs| == |r.shared.table|
  {
    Spans(r.shared.table)
  }

  /** Everything is on the ring and in the index. */
  predicate Fit(r: Ring) {
    && 0 < r.n <= 0x7fff_f000 && r.offset < r.n && r.index < |r.frames|
    && FramesOk(r.n, r.frames) && UsersOk(r.n, r.frames, r.shared.users) && AllOnRing(r.n, Holes(r))
  }

  /** __RequestReadPtr: the frames from first to last hold at least a byte, and all their
      bytes have been written. */
  predicate Readable(r: Ring, first: nat, last: nat)
    requires Fit(r) && first < |r.frames| && last < |r.frames|
  {
    var a, size := r.frames[first].offset, Fwd(r.n, r.frames[first].offset, r.frames[last].offset) + r.frames[last].length;
    0 < size <= Fwd(r.n, a, r.offset)
  }

  /** What the code demands of a call. */
  predicate CallOk(r: Ring, call: Call)
    requires Fit(r)
  {
    match call
    case Table(op) =>
      && OpOk(r.n, r.frames, r.shared, op)
      && (op.Discard? ==> op.index == r.index && op.offset == r.offset)
      && (op.RequestRead? ==> Readable(r, op.first, op.last))
    case RequestWrite(size, align, blocking) => align > 0 ==> r.n % align == 0
    case CommitWrite(bytes) => bytes <= r.last
  }

  function Asked(r: Ring, size: nat, align: nat, blocking: bool): Outcome
    requires Fit(r)
  {
    Request(r.n, r.offset, r.shared.users, Holes(r), size, align, blocking, r.written)
  }

  function Committing(r: Ring, bytes: nat): Ring
    requires Fit(r)
  {
    if r.last == 0 then r
    else if bytes == 0 then r.(last := 0, pad := 0)
    else r.(frames := r.frames[r.index := Frame(Adv(r.n, r.offset, r.pad), bytes)], index := (r.index + 1) % |r.frames|,
            offset := Adv(r.n, r.offset, bytes + r.pad), written := true, last := 0, pad := 0)
  }

  function After(r: Ring, call: Call): Ring
    requires Fit(r) && CallOk(r, call)
  {
    match call
    case Table(op) =>
      var t := r.(shared := Step(r.n, r.frames, r.shared, op));
      if op.ResetAll? then t.(offset := 0, index := 0, written := false, last := 0) else t
    case RequestWrite(size, align, blocking) =>
      (match Asked(r, size, align, blocking)
       case Granted(skip, pad) => r.(offset := Adv(r.n, r.offset, skip), last := size, pad := pad)
       case _ => r)
    case CommitWrite(bytes) => Committing(r, bytes)
  }

  // ------------------------------------------------------------- what every call keeps

  ghost predicate Sound(r: Ring) {
    Fit(r) && TableOk(r.n, r.shared)
  }

  /** Every call keeps the table in order and everything on the ring. */
  lemma CallSound(r: Ring, call: Call)
    requires Sound(r) && CallOk(r, call)
    ensures Sound(After(r, call)) && |After(r, call).shared.users| == |r.shared.users| && After(r, call).n == r.n
    ensures |After(r, call).frames| == |r.frames|
  {
    if call.Table? {
      StepKeeps(r.n, r.frames, r.shared, call.op);
      StepKeepsCount(r.n, r.frames, r.shared, call.op);
      TableFeedsAllocator(r.n, Step(r.n, r.frames, r.shared, call.op));
      hide Step, TableOk;
    }
  }

  // -------------------------------------------------------------------- all runs

  /** The state after calls made one after the other; a call that the code forbids at that
      point is not made. */
  ghost function RunCalls(r: Ring, calls: seq<Call>): (t: Ring)
    requires Sound(r)
    ensures Sound(t) && |t.shared.users| == |r.shared.users| && t.n == r.n && |t.frames| == |r.frames|
  {
    if calls == [] then r
    else
      var t := RunCalls(r, calls[..|calls| - 1]);
      var call := calls[|calls| - 1];
      if CallOk(t, call) then
        CallSound(t, call);
        After(t, call)
      else t
  }

  /** Nothing has been written or is held yet. */
  predicate Fresh(r: Ring) {
    && Fit(r) && r.shared.table == [] && NamesDiffer(r.shared.users) && r.last == 0
    && forall i :: 0 <= i < |r.shared.users| ==> !r.shared.users[i].state.Holding?
  }

  lemma FreshSound(r: Ring)
    requires Fresh(r)
    ensures Sound(r)
  {
  }

  /** For uniquely named consumers the table is sorted by (start, end) in every run, its
      holes belong to different blocked consumers, so that one that holds a frame owns
      none, and there are never more holes than consumers. */
  lemma TableInRuns(r: Ring, calls: seq<Call>)
    requires Fresh(r)
    ensures Sound(r)
    ensures var t := RunCalls(r, calls);
            TableOk(t.n, t.shared) && ByStartThenEnd(t.shared.table) && |t.shared.table| <= |t.shared.users| == |r.shared.users|
  {
    FreshSound(r);
    var t := RunCalls(r, calls);
    SortedMeans(t.shared.table);
    OwnersFit(t.shared.users, t.shared.table);
  }

  /** In every run, whenever the producer overtakes a consumer that holds frames, the
      assertion of InsertBlackHole holds, and the hole goes in. */
  lemma AssertionHoldsInRuns(r: Ring, calls: seq<Call>, i: nat, span: Span)
    requires Fresh(r) && Sound(r) && |r.shared.users| == MAX_CONSUMERS
    requires var t := RunCalls(r, calls); UserOk(t.shared, i) && t.shared.users[i].state.Holding?
    ensures var t := RunCalls(r, calls);
            |t.shared.table| < MAX_CONSUMERS && Insert(t.shared.table, Hole(span, t.shared.users[i].name)).Done?
  {
    var t := RunCalls(r, calls);
    HoleGoesIn(t.n, t.shared, i, span);
  }

  // ------------------------------------------------------------- no hole is empty

  /** No consumer holds the frame in the next slot of the index: RequestWriteFrame moves
      readers out of its way first. */
  predicate SlotFree(r: Ring) {
    forall i :: 0 <= i < |r.shared.users| && Installed(r.shared.users[i]) && r.shared.users[i].state.Holding?
            ==> r.shared.users[i].refStart != r.index && r.shared.users[i].refEnd != r.index
  }

  /** Every consumer that holds frames holds at least a byte. */
  predicate HoldsBytes(n: nat, frames: seq<Frame>, users: seq<Consumer>)
    requires FramesOk(n, frames) && UsersOk(n, frames, users)
  {
    forall i :: 0 <= i < |users| && Installed(users[i]) && users[i].state.Holding?
            ==> HeldSpan(n, frames, users[i]).start != HeldSpan(n, frames, users[i]).end
  }

  ghost predicate FullHoles(table: seq<Hole>) {
    forall h :: h in table ==> h.span.start != h.span.end
  }

  /** No hole is empty, and none would be. */
  ghost predicate Full(r: Ring)
    requires Fit(r)
  {
    FullHoles(r.shared.table) && HoldsBytes(r.n, r.frames, r.shared.users)
  }

  lemma FullIsNonEmpty(table: seq<Hole>)
    requires FullHoles(table)
    ensures NonEmpty(Spans(table))
  {
    assert forall i :: 0 <= i < |table| ==> table[i] in table;
  }

  lemma IsolateFull(n: nat, frames: seq<Frame>, s: Shared, i: nat)
    requires FramesOk(n, frames) && UsersOk(n, frames, s.users) && TableOk(n, s) && UserOk(s, i)
    requires s.users[i].state.Holding? && HoldsBytes(n, frames, s.users) && FullHoles(s.table)
    ensures FullHoles(Isolate(n, frames, s, i).table) && Isolate(n, frames, s, i).users == s.users
  {
    OnlyBlockedOwn(n, s, i);
    InsertKeeps(s.table, Hole(HeldSpan(n, frames, s.users[i]), s.users[i].name));
  }

  /** One turn of a reset. */
  lemma ResetUserFull(n: nat, frames: seq<Frame>, s: Shared, i: nat)
    requires FramesOk(n, frames) && UsersOk(n, frames, s.users) && TableOk(n, s) && i < |s.users|
    requires HoldsBytes(n, frames, s.users) && FullHoles(s.table)
    ensures var t := ResetUser(n, frames, s, i);
            UsersOk(n, frames, t.users) && TableOk(n, t) && HoldsBytes(n, frames, t.users) && FullHoles(t.table)
  {
    ResetUserKeeps(n, frames, s, i);
    if Installed(s.users[i]) && s.users[i].state.Holding? {
      IsolateFull(n, frames, s, i);
    }
  }

  lemma {:induction false} ResetFull(n: nat, frames: seq<Frame>, s: Shared, i: nat)
    requires FramesOk(n, frames) && UsersOk(n, frames, s.users) && TableOk(n, s) && i <= |s.users|
    requires HoldsBytes(n, frames, s.users) && FullHoles(s.table)
    ensures var t := ResetFrom(n, frames, s, i);
            UsersOk(n, frames, t.users) && HoldsBytes(n, frames, t.users) && FullHoles(t.table)
    decreases |s.users| - i
  {
    hide TableOk, HoldsBytes, FullHoles;
    if i < |s.users| {
      ResetUserFull(n, frames, s, i);
      ResetFull(n, frames, ResetUser(n, frames, s, i), i + 1);
    }
  }

  lemma ReleaseFull(s: Shared, user: nat)
    requires user < |s.users| && FullHoles(s.table)
    ensures FullHoles(Release(s, user).table)
  {
    DeleteExactly(s.table, s.users[user].name);
  }

  /** What is read is not empty. */
  lemma ReadHolds(r: Ring, first: nat, last: nat, c: Consumer)
    requires Fit(r) && first < |r.frames| && last < |r.frames| && Readable(r, first, last)
    requires c.refStart == first && c.refEnd == last
    ensures HeldSpan(r.n, r.frames, c).start != HeldSpan(r.n, r.frames, c).end
  {
    var a, b := r.frames[first], r.frames[last];
    var size := Fwd(r.n, a.offset, b.offset) + b.length;
    AdvSmall(r.n, a.offset, size);
    AdvAfter(r.n, a.offset, b.offset, b.length);
  }

  lemma AdvAfter(n: nat, a: nat, b: nat, k: nat)
    requires a < n && b < n && Fwd(n, a, b) + k < n
    ensures Adv(n, b, k) == Adv(n, a, Fwd(n, a, b) + k)
  {
    Macros(n, a, b);
    AdvTwice(n, a, Fwd(n, a, b), k);
  }

  lemma OpFull(r: Ring, op: Op)
    requires Sound(r) && Full(r) && CallOk(r, Table(op))
    ensures var s := Step(r.n, r.frames, r.shared, op);
            UsersOk(r.n, r.frames, s.users) && FullHoles(s.table) && HoldsBytes(r.n, r.frames, s.users)
  {
    StepKeeps(r.n, r.frames, r.shared, op);
    hide TableOk;
    match op
    case RequestRead(user, first, last) =>
      ReleaseFull(r.shared, user);
      ReadHolds(r, first, last, Step(r.n, r.frames, r.shared, op).users[user]);
    case RequestNothing(user) => ReleaseFull(r.shared, user);
    case CommitRead(user, bytes) => ReleaseFull(r.shared, user);
    case CommitNothing(user) => ReleaseFull(r.shared, user);
    case Discard(user, index, offset) => ReleaseFull(r.shared, user);
    case MoveBlocker(user, index, wait) =>
      if r.shared.users[user].state.Holding? {
        IsolateFull(r.n, r.frames, r.shared, user);
      }
    case ResetAll => ResetFull(r.n, r.frames, r.shared, 0);
  }

  /** A commit that overwrites no frame a consumer holds, and every other call, keeps the
      holes from being empty. */
  lemma CallFull(r: Ring, call: Call)
    requires Sound(r) && Full(r) && CallOk(r, call) && (call.CommitWrite? ==> SlotFree(r))
    ensures Fit(After(r, call)) && Full(After(r, call))
  {
    CallSound(r, call);
    if call.Table? {
      OpFull(r, call.op);
      hide Step, TableOk, HoldsBytes, FullHoles;
    } else if call.CommitWrite? && r.last > 0 && call.bytes > 0 {
      var frames := After(r, call).frames;
      forall i | 0 <= i < |r.shared.users| && Installed(r.shared.users[i]) && r.shared.users[i].state.Holding?
        ensures HeldSpan(r.n, frames, r.shared.users[i]) == HeldSpan(r.n, r.frames, r.shared.users[i])
      {
      }
    }
  }

  /** No commit of the run overwrites a frame that is held. */
  ghost predicate SlotsFree(r: Ring, calls: seq<Call>)
    requires Sound(r)
  {
    calls != [] ==>
      && SlotsFree(r, calls[..|calls| - 1])
      && (calls[|calls| - 1].CommitWrite? ==> SlotFree(RunCalls(r, calls[..|calls| - 1])))
  }

  lemma {:induction false} FullInRuns(r: Ring, calls: seq<Call>)
    requires Fresh(r) && Sound(r) && SlotsFree(r, calls)
    ensures Full(RunCalls(r, calls))
  {
    if calls != [] {
      FullInRuns(r, calls[..|calls| - 1]);
      var t := RunCalls(r, calls[..|calls| - 1]);
      if CallOk(t, calls[|calls| - 1]) {
        CallFull(t, calls[|calls| - 1]);
      }
    }
  }

  // ---------------------------------------------------- what keeps the offset clear

  /** The write offset is in no hole's (start, end]. */
  ghost predicate ClearRing(r: Ring)
    requires Fit(r)
  {
    Clear(r.n, r.offset, Holes(r))
  }

  /** A hole that is not empty and covers byte x. */
  ghost predicate CoveredBy(n: nat, table: seq<Hole>, x: nat)
    requires AllOnRing(n, Spans(table)) && x < n
  {
    exists h :: h in table && OnRing(n, h.span) && Covers(n, h.span, x)
  }

  lemma InHoleIs(n: nat, table: seq<Hole>, x: nat)
    requires AllOnRing(n, Spans(table)) && x < n
    ensures InHole(n, Spans(table), x) <==> CoveredBy(n, table, x)
  {
    if InHole(n, Spans(table), x) {
      var i :| 0 <= i < |table| && Covers(n, Spans(table)[i], x);
      assert table[i] in table;
    }
    if CoveredBy(n, table, x) {
      var h :| h in table && OnRing(n, h.span) && Covers(n, h.span, x);
      var i :| 0 <= i < |table| && table[i] == h;
      assert Covers(n, Spans(table)[i], x);
    }
  }

  /** Fewer holes cover fewer bytes. */
  lemma FewerCover(n: nat, a: seq<Hole>, b: seq<Hole>, x: nat)
    requires AllOnRing(n, Spans(a)) && AllOnRing(n, Spans(b)) && x < n && forall h :: h in b ==> h in a
    ensures InHole(n, Spans(b), x) ==> InHole(n, Spans(a), x)
  {
    InHoleIs(n, a, x);
    InHoleIs(n, b, x);
  }

  /** The calls of consumers only take holes away. */
  predicate ByConsumer(op: Op) {
    !op.MoveBlocker? && !op.ResetAll?
  }

  lemma ConsumersOnlyDelete(n: nat, frames: seq<Frame>, s: Shared, op: Op)
    requires FramesOk(n, frames) && UsersOk(n, frames, s.users) && OpOk(n, frames, s, op) && ByConsumer(op)
    ensures forall h :: h in Step(n, frames, s, op).table ==> h in s.table
  {
    DeleteExactly(s.table, s.users[op.user].name);
  }

  /** No call of a consumer covers a byte that was free. */
  lemma ConsumersFree(r: Ring, op: Op, x: nat)
    requires Sound(r) && CallOk(r, Table(op)) && ByConsumer(op) && x < r.n
    ensures Fit(After(r, Table(op)))
    ensures !InHole(r.n, Holes(r), x) ==> !InHole(r.n, Holes(After(r, Table(op))), x)
  {
    CallSound(r, Table(op));
    ConsumersOnlyDelete(r.n, r.frames, r.shared, op);
    FewerCover(r.n, r.shared.table, After(r, Table(op)).shared.table, x);
  }

  /** The span a hole would get if the consumer were overtaken now. */
  function Held(r: Ring, user: nat): (h: Span)
    requires Fit(r) && user < |r.shared.users|
    ensures OnRing(r.n, h)
  {
    HeldSpan(r.n, r.frames, r.shared.users[user])
  }

  predicate Holds(r: Ring, user: nat) {
    user < |r.shared.users| && Installed(r.shared.users[user]) && r.shared.users[user].state.Holding?
  }

  /** Overtaking a consumer covers exactly what it holds. */
  lemma OvertakingCovers(r: Ring, user: nat, index: nat, wait: bool, x: nat)
    requires Sound(r) && CallOk(r, Table(MoveBlocker(user, index, wait))) && x < r.n
    ensures Fit(After(r, Table(MoveBlocker(user, index, wait))))
    ensures InHole(r.n, Holes(After(r, Table(MoveBlocker(user, index, wait)))), x)
       <==> InHole(r.n, Holes(r), x) || (Holds(r, user) && Covers(r.n, Held(r, user), x))
  {
    var t := After(r, Table(MoveBlocker(user, index, wait)));
    CallSound(r, Table(MoveBlocker(user, index, wait)));
    InHoleIs(r.n, r.shared.table, x);
    InHoleIs(r.n, t.shared.table, x);
    if Holds(r, user) {
      var h := Hole(Held(r, user), r.shared.users[user].name);
      OnlyBlockedOwn(r.n, r.shared, user);
      InsertKeeps(r.shared.table, h);
      assert h in t.shared.table;
    }
  }

  /** Some consumer from slot i on holds byte x. */
  ghost predicate HeldFrom(n: nat, frames: seq<Frame>, users: seq<Consumer>, i: nat, x: nat)
    requires FramesOk(n, frames) && UsersOk(n, frames, users) && x < n
  {
    exists j :: i <= j < |users| && Installed(users[j]) && users[j].state.Holding? && Covers(n, HeldSpan(n, frames, users[j]), x)
  }

  lemma ResetUserCovers(n: nat, frames: seq<Frame>, s: Shared, i: nat, x: nat)
    requires FramesOk(n, frames) && UsersOk(n, frames, s.users) && TableOk(n, s) && i < |s.users| && x < n
    ensures var t := ResetUser(n, frames, s, i);
            && UsersOk(n, frames, t.users) && TableOk(n, t) && AllOnRing(n, Spans(s.table)) && AllOnRing(n, Spans(t.table))
            && (InHole(n, Spans(t.table), x) || HeldFrom(n, frames, t.users, i + 1, x)
                <==> InHole(n, Spans(s.table), x) || HeldFrom(n, frames, s.users, i, x))
  {
    var t := ResetUser(n, frames, s, i);
    ResetUserKeeps(n, frames, s, i);
    TableFeedsAllocator(n, s);
    TableFeedsAllocator(n, t);
    InHoleIs(n, s.table, x);
    InHoleIs(n, t.table, x);
    assert forall j :: i < j < |s.users| ==> t.users[j] == s.users[j];
    if Installed(s.users[i]) && s.users[i].state.Holding? {
      var h := Hole(HeldSpan(n, frames, s.users[i]), s.users[i].name);
      OnlyBlockedOwn(n, s, i);
      InsertKeeps(s.table, h);
      assert h in t.table;
    }
    hide TableOk, InHole, Spans;
  }

  lemma {:induction false} ResetCovers(n: nat, frames: seq<Frame>, s: Shared, i: nat, x: nat)
    requires FramesOk(n, frames) && UsersOk(n, frames, s.users) && TableOk(n, s) && i <= |s.users| && x < n
    ensures var t := ResetFrom(n, frames, s, i);
            && UsersOk(n, frames, t.users) && TableOk(n, t) && AllOnRing(n, Spans(s.table)) && AllOnRing(n, Spans(t.table))
            && (InHole(n, Spans(t.table), x) <==> InHole(n, Spans(s.table), x) || HeldFrom(n, frames, s.users, i, x))
    decreases |s.users| - i
  {
    TableFeedsAllocator(n, s);
    if i < |s.users| {
      ResetUserCovers(n, frames, s, i, x);
      hide TableOk, InHole, Spans, HeldFrom, UsersOk, ResetUser;
      ResetCovers(n, frames, ResetUser(n, frames, s, i), i + 1, x);
    }
  }

  /** A request at a clear offset leaves it clear exactly when it does not jump. */
  lemma RequestClearExactly(r: Ring, size: nat, align: nat, blocking: bool)
    requires Sound(r) && Full(r) && ClearRing(r) && CallOk(r, RequestWrite(size, align, blocking))
    ensures Fit(After(r, RequestWrite(size, align, blocking)))
    ensures ClearRing(After(r, RequestWrite(size, align, blocking)))
       <==> (Asked(r, size, align, blocking).Granted? ==> Asked(r, size, align, blocking).skip == 0)
  {
    CallSound(r, RequestWrite(size, align, blocking));
    TableFeedsAllocator(r.n, r.shared);
    FullIsNonEmpty(r.shared.table);
    hide Request, Clear;
    if Asked(r, size, align, blocking).Granted? {
      CommitKeepsClear(r.n, r.offset, r.shared.users, Holes(r), size, align, blocking, r.written, 0);
    }
  }

  /** Overtaking keeps the offset clear exactly when it is not in (start, end] of what is
      held: when the consumer does not hold the byte before it. */
  lemma OvertakeClearExactly(r: Ring, user: nat, index: nat, wait: bool)
    requires Sound(r) && ClearRing(r) && CallOk(r, Table(MoveBlocker(user, index, wait)))
    ensures Fit(After(r, Table(MoveBlocker(user, index, wait))))
    ensures ClearRing(After(r, Table(MoveBlocker(user, index, wait))))
       <==> !(Holds(r, user) && Reaches(r.n, r.offset, Held(r, user)))
  {
    var before := Adv(r.n, r.offset, r.n - 1);
    OvertakingCovers(r, user, index, wait, before);
    hide Reaches, InHole, Clear, Covers, Held, After;
    ClearIsFree(r.n, r.offset, Holes(r));
    ClearIsFree(r.n, r.offset, Holes(After(r, Table(MoveBlocker(user, index, wait)))));
    OffsetIn(r, user, index, wait);
    ReachesIsCovers(r.n, r.offset, Held(r, user));
  }

  lemma OffsetIn(r: Ring, user: nat, index: nat, wait: bool)
    requires Fit(r) && CallOk(r, Table(MoveBlocker(user, index, wait)))
    ensures After(r, Table(MoveBlocker(user, index, wait))).offset == r.offset
    ensures After(r, Table(MoveBlocker(user, index, wait))).n == r.n
  {
  }

  lemma ReachesIsCovers(n: nat, w: nat, h: Span)
    requires w < n && OnRing(n, h)
    ensures Reaches(n, w, h) <==> Covers(n, h, Adv(n, w, n - 1))
  {
    AdvSmall(n, w, n - 1);
  }

  /** No consumer holds a span with w in its (start, end]. */
  ghost predicate NoneHoldsBefore(r: Ring, w: nat)
    requires Fit(r) && w < r.n
  {
    forall j :: 0 <= j < |r.shared.users| && Holds(r, j) ==> !Reaches(r.n, w, Held(r, j))
  }

  lemma HeldBefore(r: Ring, w: nat)
    requires Fit(r) && w < r.n
    ensures NoneHoldsBefore(r, w) <==> !HeldFrom(r.n, r.frames, r.shared.users, 0, Adv(r.n, w, r.n - 1))
  {
    hide Reaches, Covers, Adv, HeldSpan;
    var x := Adv(r.n, w, r.n - 1);
    forall j | 0 <= j < |r.shared.users|
      ensures Reaches(r.n, w, Held(r, j)) <==> Covers(r.n, Held(r, j), x)
    {
      ReachesIsCovers(r.n, w, Held(r, j));
    }
    assert forall j :: 0 <= j < |r.shared.users| ==> Held(r, j) == HeldSpan(r.n, r.frames, r.shared.users[j]);
    hide Held;
  }

  /** A reset leaves the offset, now 0, clear exactly when no hole, old or made by the reset,
      has 0 in its (start, end]: when the last byte of the ring is held by nobody. */
  lemma ResetClearExactly(r: Ring)
    requires Sound(r)
    ensures Fit(After(r, Table(ResetAll)))
    ensures ClearRing(After(r, Table(ResetAll))) <==> Clear(r.n, 0, Holes(r)) && NoneHoldsBefore(r, 0)
  {
    hide InHole, Clear, TableOk, NoneHoldsBefore, HeldFrom, Adv;
    var t := After(r, Table(ResetAll));
    var x := Adv(r.n, 0, r.n - 1);
    CallSound(r, Table(ResetAll));
    ResetCovers(r.n, r.frames, r.shared, 0, x);
    ClearIsFree(r.n, 0, Holes(r));
    ClearIsFree(r.n, 0, Holes(t));
    HeldBefore(r, 0);
  }

  /** Consumers never disturb it. */
  lemma ConsumerKeepsClear(r: Ring, op: Op)
    requires Sound(r) && ClearRing(r) && CallOk(r, Table(op)) && ByConsumer(op)
    ensures Fit(After(r, Table(op))) && ClearRing(After(r, Table(op)))
  {
    var t := After(r, Table(op));
    ConsumersFree(r, op, Adv(r.n, r.offset, r.n - 1));
    ClearIsFree(r.n, r.offset, Holes(r));
    ClearIsFree(r.n, r.offset, Holes(t));
  }

  // ------------------------------------------------------------- between the calls

  /** The bytes of the last grant, padding included, are in no hole. */
  ghost predicate RangeFree(r: Ring)
    requires Fit(r)
  {
    r.pad + r.last < r.n && forall k: nat :: k < r.pad + r.last ==> !InHole(r.n, Holes(r), Adv(r.n, r.offset, k))
  }

  /** What is needed between two calls: while a grant is out its bytes are in no hole;
      otherwise the offset is clear, so that by GrantIsFree the next grant is free. */
  ghost predicate Settled(r: Ring)
    requires Fit(r)
  {
    if r.last > 0 then RangeFree(r) else ClearRing(r)
  }

  /** When a call keeps that.  A consumer's call always does.  Overtaking does when the
      consumer does not hold the byte before the offset, or, while a grant is out, none of
      its bytes; a reset when nobody holds the last byte of the ring; discarding a grant
      when the offset is clear, that is, when the request did not jump. */
  ghost predicate Keeps(r: Ring, call: Call)
    requires Fit(r) && CallOk(r, call)
  {
    match call
    case Table(op) =>
      (match op
       case MoveBlocker(user, index, wait) =>
         Holds(r, user) ==>
           if r.last > 0 then forall k: nat :: k < r.pad + r.last ==> !Covers(r.n, Held(r, user), Adv(r.n, r.offset, k))
           else !Reaches(r.n, r.offset, Held(r, user))
       case ResetAll => Clear(r.n, 0, Holes(r)) && NoneHoldsBefore(r, 0)
       case _ => true)
    case RequestWrite(size, align, blocking) => true
    case CommitWrite(bytes) => r.last > 0 && bytes == 0 ==> ClearRing(r)
  }

  lemma UsersAreReaders(r: Ring)
    requires Fit(r)
    ensures ReadersOnRing(r.n, r.shared.users)
  {
  }

  lemma GrantSettles(r: Ring, size: nat, align: nat, blocking: bool)
    requires Sound(r) && ClearRing(r) && CallOk(r, RequestWrite(size, align, blocking))
    requires Asked(r, size, align, blocking).Granted?
    ensures Fit(After(r, RequestWrite(size, align, blocking))) && Settled(After(r, RequestWrite(size, align, blocking)))
  {
    hide Request, InHole, Adv, Leap, Clear, MinWritable, TableOk, UsersOk, FramesOk;
    var g := Asked(r, size, align, blocking);
    var t := After(r, RequestWrite(size, align, blocking));
    CallSound(r, RequestWrite(size, align, blocking));
    TableFeedsAllocator(r.n, r.shared);
    UsersAreReaders(r);
    GrantFacts(r.n, r.offset, r.shared.users, Holes(r), size, align, blocking, r.written);
    forall k: nat | k < t.pad + t.last
      ensures !InHole(r.n, Holes(r), Adv(r.n, t.offset, k))
    {
      JumpedIsFree(r.n, r.offset, Holes(r), size + align, g.skip + k);
      AdvTwice(r.n, r.offset, g.skip, k);
    }
  }

  lemma CommitSettles(r: Ring, bytes: nat)
    requires Sound(r) && Settled(r) && CallOk(r, CommitWrite(bytes))
    ensures Fit(Committing(r, bytes))
    ensures Settled(Committing(r, bytes)) <==> Keeps(r, CommitWrite(bytes))
  {
    CallSound(r, CommitWrite(bytes));
    hide InHole, Clear, Adv;
    if r.last > 0 && bytes > 0 {
      ClearAfter(r.n, r.offset, Holes(r), bytes + r.pad);
    }
  }

  lemma ConsumerSettles(r: Ring, op: Op)
    requires Sound(r) && Settled(r) && CallOk(r, Table(op)) && ByConsumer(op)
    ensures Fit(After(r, Table(op))) && Settled(After(r, Table(op)))
  {
    var t := After(r, Table(op));
    if r.last > 0 {
      CallSound(r, Table(op));
      hide InHole, Adv;
      forall k: nat | k < r.pad + r.last
        ensures !InHole(r.n, Holes(t), Adv(r.n, r.offset, k))
      {
        ConsumersFree(r, op, Adv(r.n, r.offset, k));
      }
    } else {
      ConsumerKeepsClear(r, op);
    }
  }

  lemma OvertakeSettles(r: Ring, user: nat, index: nat, wait: bool)
    requires Sound(r) && Settled(r) && CallOk(r, Table(MoveBlocker(user, index, wait)))
    ensures Fit(After(r, Table(MoveBlocker(user, index, wait))))
    ensures Settled(After(r, Table(MoveBlocker(user, index, wait)))) <==> Keeps(r, Table(MoveBlocker(user, index, wait)))
  {
    var call := Table(MoveBlocker(user, index, wait));
    var t := After(r, call);
    CallSound(r, call);
    if r.last > 0 {
      hide InHole, Adv, Covers, Held;
      forall k: nat | k < r.pad + r.last
        ensures InHole(r.n, Holes(t), Adv(r.n, r.offset, k))
           <==> Holds(r, user) && Covers(r.n, Held(r, user), Adv(r.n, r.offset, k))
      {
        OvertakingCovers(r, user, index, wait, Adv(r.n, r.offset, k));
      }
    } else {
      OvertakeClearExactly(r, user, index, wait);
    }
  }

  /** Each call keeps the ring settled exactly when Keeps says so, as long as requests are
      made at a clear offset. */
  lemma SettledExactly(r: Ring, call: Call)
    requires Sound(r) && Settled(r) && CallOk(r, call) && (call.RequestWrite? ==> ClearRing(r))
    ensures Fit(After(r, call)) && (Settled(After(r, call)) <==> Keeps(r, call))
  {
    match call
    case Table(op) =>
      if op.MoveBlocker? {
        OvertakeSettles(r, op.user, op.index, op.wait);
      } else if op.ResetAll? {
        ResetClearExactly(r);
      } else {
        ConsumerSettles(r, op);
      }
    case RequestWrite(size, align, blocking) =>
      if Asked(r, size, align, blocking).Granted? {
        GrantSettles(r, size, align, blocking);
      }
    case CommitWrite(bytes) => CommitSettles(r, bytes);
  }

  /** Every call made in the run keeps the ring settled, and requests are made at a clear
      offset. */
  ghost predicate Orderly(r: Ring, calls: seq<Call>)
    requires Sound(r)
  {
    calls == [] ||
    var t, call := RunCalls(r, calls[..|calls| - 1]), calls[|calls| - 1];
    && Orderly(r, calls[..|calls| - 1])
    && (CallOk(t, call) ==> Keeps(t, call) && (call.RequestWrite? ==> ClearRing(t)))
  }

  /** The ring is settled after every call, and clear at every request. */
  ghost predicate SettledThroughout(r: Ring, calls: seq<Call>)
    requires Sound(r)
  {
    && Settled(RunCalls(r, calls))
    && (calls == [] ||
        var t, call := RunCalls(r, calls[..|calls| - 1]), calls[|calls| - 1];
        && SettledThroughout(r, calls[..|calls| - 1])
        && (CallOk(t, call) && call.RequestWrite? ==> ClearRing(t)))
  }

  /** The runs in which the ring is settled throughout, and clear at every request, are
      exactly those in which no call breaks its condition. */
  lemma {:induction false} OrderlyExactly(r: Ring, calls: seq<Call>)
    requires Fresh(r) && Sound(r)
    ensures Orderly(r, calls) <==> SettledThroughout(r, calls)
  {
    if calls != [] {
      var front, call := calls[..|calls| - 1], calls[|calls| - 1];
      OrderlyExactly(r, front);
      var t := RunCalls(r, front);
      if SettledThroughout(r, front) && CallOk(t, call) && (call.RequestWrite? ==> ClearRing(t)) {
        SettledExactly(t, call);
      }
    }
  }

  /** In such a run every byte of every grant is in no hole, and no installed consumer has it unread. */
  lemma OrderlyGrantsFree(r: Ring, calls: seq<Call>, size: nat, align: nat, blocking: bool, k: nat)
    requires Fresh(r) && Sound(r) && Orderly(r, calls + [RequestWrite(size, align, blocking)]) && k < size
    requires var t := RunCalls(r, calls); CallOk(t, RequestWrite(size, align, blocking)) && Asked(t, size, align, blocking).Granted?
    ensures var t := RunCalls(r, calls);
            var g := Asked(t, size, align, blocking);
            var x := Adv(t.n, Adv(t.n, Adv(t.n, t.offset, g.skip), g.pad), k);
            && !InHole(t.n, Holes(t), x)
            && forall i :: 0 <= i < |t.shared.users| && Installed(t.shared.users[i]) ==> !Unread(t.n, t.offset, t.shared.users[i].offset, x)
  {
    var t, all := RunCalls(r, calls), calls + [RequestWrite(size, align, blocking)];
    assert all[..|calls|] == calls;
    TableFeedsAllocator(t.n, t.shared);
    hide RunCalls, Request, InHole, Unread, Adv, Clear, Orderly;
    ClearInOrderly(r, calls, RequestWrite(size, align, blocking));
    GrantIsFree(t.n, t.offset, t.shared.users, Holes(t), size, align, blocking, t.written, k);
  }

  lemma ClearInOrderly(r: Ring, calls: seq<Call>, call: Call)
    requires Sound(r) && Orderly(r, calls + [call]) && call.RequestWrite? && CallOk(RunCalls(r, calls), call)
    ensures ClearRing(RunCalls(r, calls))
  {
    assert (calls + [call])[..|calls|] == calls;
  }

  /** After any run whatsoever that overwrites no frame still held: no request could be
      granted a byte of a hole exactly when the write offset is safe. */
  lemma GrantsInRunsExactly(r: Ring, calls: seq<Call>)
    requires Fresh(r) && Sound(r) && SlotsFree(r, calls)
    ensures var t := RunCalls(r, calls);
            var us, hs := t.shared.users, Holes(t);
            GrantsFree(t.n, t.offset, us, hs) <==> SafeOffset(t.n, t.offset, us, hs)
  {
    hide RunCalls, GrantsFree, SafeOffset;
    var t := RunCalls(r, calls);
    FullInRuns(r, calls);
    FullIsNonEmpty(t.shared.table);
    TableFeedsAllocator(t.n, t.shared);
    GrantsFreeExactly(t.n, t.offset, t.shared.users, Holes(t));
  }
}
