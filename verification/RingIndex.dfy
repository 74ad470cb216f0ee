/** The frame index of the ring: how the next frame is found, who stands in the way of the
    next slot, and that a producer who moves those consumers first never overwrites the
    entry of a frame that is held. */
module RingIndex {
  import opened RingGeometry
  import opened RingAlloc
  import opened RingTable
  import opened RingRuns

  /** The frame types that matter here: CRB_FRAME_I_SLICE and CRB_FRAME_ANY. */
  const I_SLICE: nat := 0
  const ANY: nat := 9

  // ------------------------------------------------------------ finding a frame

  datatype Search = NoFrame | At(index: nat)

  function Next(f: nat, i: nat): (j: nat)
    requires i < f
    ensures j < f && (i + 1 < f ==> j == i + 1) && (i + 1 == f ==> j == 0)
  {
    (i + 1) % f
  }

  /** IndexFindNextFrame, without the search for non-continuous frames. */
  function NextFrame(kinds: seq<nat>, from: nat, p: nat, kind: nat): (r: Search)
    requires from < |kinds| && p < |kinds|
    ensures r.At? ==> r.index < |kinds|
    decreases Fwd(|kinds|, from, p)
  {
    if from == p then NoFrame
    else if kind == ANY || kinds[from] == kind then At(from)
    else NextFrame(kinds, Next(|kinds|, from), p, kind)
  }

  /** The search stops at the first frame of that type before p, going round; and it fails
      exactly when there is none. */
  lemma {:induction false} NextFrameExactly(kinds: seq<nat>, from: nat, p: nat, kind: nat, x: nat)
    requires from < |kinds| && p < |kinds| && x < |kinds|
    ensures NextFrame(kinds, from, p, kind) == At(x)
       <==> Matches(kinds, kind, x) && Fwd(|kinds|, from, x) < Fwd(|kinds|, from, p)
            && forall y :: 0 <= y < |kinds| && Fwd(|kinds|, from, y) < Fwd(|kinds|, from, x) ==> !Matches(kinds, kind, y)
    decreases Fwd(|kinds|, from, p)
  {
    var f := |kinds|;
    if from != p && !Matches(kinds, kind, from) {
      NextFrameExactly(kinds, Next(f, from), p, kind, x);
      forall y: nat | y < f && y != from
        ensures Fwd(f, Next(f, from), y) == Fwd(f, from, y) - 1
      {
      }
    }
  }

  predicate Matches(kinds: seq<nat>, kind: nat, x: nat)
    requires x < |kinds|
  {
    kind == ANY || kinds[x] == kind
  }

  /** So what is found lies between from and p. */
  lemma FoundBetween(kinds: seq<nat>, from: nat, p: nat, kind: nat)
    requires from < |kinds| && p < |kinds| && NextFrame(kinds, from, p, kind).At?
    ensures var x := NextFrame(kinds, from, p, kind).index;
            0 < Fwd(|kinds|, x, p) <= Fwd(|kinds|, from, p)
  {
    NextFrameExactly(kinds, from, p, kind, NextFrame(kinds, from, p, kind).index);
  }

  datatype Destination = Destination(index: nat, iFrame: bool)

  /** Where MoveAllBlockers moves a consumer whose next frame is i: to the next I frame, or
      to the newest frame if there is none. */
  function Target(kinds: seq<nat>, i: nat, p: nat): (r: Destination)
    requires i < |kinds| && p < |kinds|
    ensures r.index < |kinds|
  {
    match NextFrame(kinds, Next(|kinds|, i), p, I_SLICE)
    case At(x) => if x == i then Destination((p + |kinds| - 1) % |kinds|, false) else Destination(x, true)
    case NoFrame => Destination((p + |kinds| - 1) % |kinds|, false)
  }

  /** A consumer that stood in the way of the next slot no longer does. */
  lemma TargetOutOfTheWay(kinds: seq<nat>, p: nat)
    requires |kinds| >= 3 && p < |kinds|
    ensures Target(kinds, Next(|kinds|, p), p).index != Next(|kinds|, p)
  {
    var f, i := |kinds|, Next(|kinds|, p);
    if NextFrame(kinds, Next(f, i), p, I_SLICE).At? {
      FoundBetween(kinds, Next(f, i), p, I_SLICE);
    }
    StepBack(f, p);
  }

  lemma StepBack(f: nat, p: nat)
    requires p < f
    ensures (p + f - 1) % f == if p == 0 then f - 1 else p - 1
  {
    Reduce(f, p + f - 1);
  }

  /** What RequestReadFrame comes to: the frame found, if all its bytes have been written. */
  function ReadOp(r: Ring, kinds: seq<nat>, user: nat, kind: nat): (op: Op)
    requires Fit(r) && |kinds| == |r.frames| && user < |r.shared.users|
  {
    match NextFrame(kinds, r.shared.users[user].index, r.index, kind)
    case NoFrame => RequestNothing(user)
    case At(x) => if Readable(r, x, x) then RequestRead(user, x, x) else RequestNothing(user)
  }

  // ------------------------------------------------------- who is in the way

  /** The consumer's next frame is in the slot after the producer's. */
  predicate InTheWay(c: Consumer, f: nat, p: nat)
    requires p < f
  {
    Installed(c) && c.index == Next(f, p)
  }

  /** IndexFindBlocker */
  function IndexBlockers(users: seq<Consumer>, f: nat, p: nat): seq<nat>
    requires p < f
  {
    if users == [] then []
    else
      var k := |users| - 1;
      IndexBlockers(users[..k], f, p) + (if InTheWay(users[k], f, p) then [k] else [])
  }

  lemma {:induction false} IndexBlockersExactly(users: seq<Consumer>, f: nat, p: nat, i: nat)
    requires p < f
    ensures i in IndexBlockers(users, f, p) <==> i < |users| && InTheWay(users[i], f, p)
  {
    if users != [] {
      IndexBlockersExactly(users[..|users| - 1], f, p, i);
    }
  }

  ghost predicate NobodyInTheWay(r: Ring)
    requires Fit(r)
  {
    forall i :: 0 <= i < |r.shared.users| ==> !InTheWay(r.shared.users[i], |r.frames|, r.index)
  }

  // -------------------------------------------------------------- guarded runs

  function Behind(r: Ring, i: nat): (d: nat)
    requires Fit(r) && i < |r.frames|
    ensures d < |r.frames|
  {
    Fwd(|r.frames|, i, r.index)
  }

  /** What the code makes sure of before a call.  RequestWriteFrame first moves those in the
      way of the next slot; blockers are moved while no grant is out, or elsewhere; a read
      finds frames between the consumer's and the producer's; only a consumer that was
      given something can commit it. */
  ghost predicate Careful(r: Ring, call: Call)
    requires Fit(r) && CallOk(r, call)
  {
    match call
    case Table(op) =>
      (match op
       case RequestRead(user, first, last) =>
         0 < Behind(r, last) <= Behind(r, first) <= Behind(r, r.shared.users[user].index)
       case CommitRead(user, bytes) => !r.shared.users[user].state.Free?
       case MoveBlocker(user, index, wait) => r.last == 0 || index != Next(|r.frames|, r.index)
       case _ => true)
    case RequestWrite(size, align, blocking) => NobodyInTheWay(r)
    case CommitWrite(bytes) => true
  }

  ghost predicate Guarded(r: Ring, calls: seq<Call>)
    requires Sound(r)
  {
    calls == [] ||
    var t, call := RunCalls(r, calls[..|calls| - 1]), calls[|calls| - 1];
    Guarded(r, calls[..|calls| - 1]) && (CallOk(t, call) ==> Careful(t, call))
  }

  /** The frames a consumer holds start with its own and end before the producer's. */
  predicate HoldsBehind(c: Consumer, f: nat, p: nat)
    requires p < f && c.refStart < f && c.refEnd < f
  {
    && (c.state.Holding? ==> c.refStart == c.index && 0 < Fwd(f, c.refEnd, p) <= Fwd(f, c.refStart, p))
    && (c.state.Blocked? ==> c.moved)
  }

  /** What a guarded run keeps. */
  ghost predicate IndexOk(r: Ring)
    requires Fit(r)
  {
    && |r.frames| >= 3
    && (forall i :: 0 <= i < |r.shared.users| && Installed(r.shared.users[i]) ==>
          HoldsBehind(r.shared.users[i], |r.frames|, r.index))
    && (r.last > 0 ==> NobodyInTheWay(r))
  }

  /** Then no consumer holds the frame in the producer's slot. */
  lemma IndexOkSlotFree(r: Ring)
    requires Fit(r) && IndexOk(r)
    ensures SlotFree(r)
  {
  }

  lemma CommitGuarded(r: Ring, bytes: nat)
    requires Sound(r) && IndexOk(r) && CallOk(r, CommitWrite(bytes))
    ensures Fit(After(r, CommitWrite(bytes))) && IndexOk(After(r, CommitWrite(bytes)))
  {
    CallSound(r, CommitWrite(bytes));
    hide TableOk;
    if r.last > 0 && bytes > 0 {
      var f, p := |r.frames|, r.index;
      forall i | 0 <= i < |r.shared.users| && Installed(r.shared.users[i])
        ensures HoldsBehind(r.shared.users[i], f, Next(f, p))
      {
        assert !InTheWay(r.shared.users[i], f, p);
        OneFurther(r.shared.users[i], f, p);
      }
    }
  }

  lemma OneFurther(c: Consumer, f: nat, p: nat)
    requires p < f && c.refStart < f && c.refEnd < f && HoldsBehind(c, f, p) && c.index != Next(f, p)
    ensures HoldsBehind(c, f, Next(f, p))
  {
  }

  /** What a call makes of the consumer that makes it, behind a producer at p; grant: a grant
      is out. */
  lemma ReaderGuarded(c: Consumer, d: Consumer, f: nat, p: nat, grant: bool)
    requires p < f && 3 <= f && c.refStart < f && c.refEnd < f && HoldsBehind(c, f, p) && (grant ==> !InTheWay(c, f, p))
    requires Installed(c)
    requires
      || d == c
      || (d.state.Free? && d.index == p)
      || (d.state.Free? && !c.state.Free? && d.index == if c.moved then c.index else Next(f, c.refEnd))
      || (d.state.Holding? && d.index == d.refStart && d.index < f && d.refEnd < f && c.index < f
          && 0 < Fwd(f, d.refEnd, p) <= Fwd(f, d.refStart, p) <= Fwd(f, c.index, p))
    ensures d.refStart < f && d.refEnd < f ==> HoldsBehind(d, f, p)
    ensures grant ==> !InTheWay(d, f, p)
  {
  }

  /** Only the consumer named by the call changes, and keeps its place behind the producer. */
  lemma ConsumerGuarded(r: Ring, op: Op)
    requires Sound(r) && IndexOk(r) && CallOk(r, Table(op)) && Careful(r, Table(op)) && ByConsumer(op)
    ensures Fit(After(r, Table(op))) && IndexOk(After(r, Table(op)))
  {
    CallSound(r, Table(op));
    hide TableOk, DeleteOwned, HoldsBehind, InTheWay;
    var users, t := r.shared.users, After(r, Table(op));
    assert HoldsBehind(users[op.user], |r.frames|, r.index);
    ReaderGuarded(users[op.user], t.shared.users[op.user], |r.frames|, r.index, r.last > 0);
    assert forall i :: 0 <= i < |users| && i != op.user ==> t.shared.users[i] == users[i];
  }

  lemma OvertakeGuarded(r: Ring, user: nat, index: nat, wait: bool)
    requires Sound(r) && IndexOk(r) && CallOk(r, Table(MoveBlocker(user, index, wait))) && Careful(r, Table(MoveBlocker(user, index, wait)))
    ensures Fit(After(r, Table(MoveBlocker(user, index, wait)))) && IndexOk(After(r, Table(MoveBlocker(user, index, wait))))
  {
    CallSound(r, Table(MoveBlocker(user, index, wait)));
    hide TableOk, Insert;
    var t := After(r, Table(MoveBlocker(user, index, wait)));
    assert forall i :: 0 <= i < |r.shared.users| && i != user ==> t.shared.users[i] == r.shared.users[i];
  }

  predicate HoldsNone(c: Consumer) {
    Installed(c) ==> !c.state.Holding? && (c.state.Blocked? ==> c.moved)
  }

  ghost predicate AllHoldNone(users: seq<Consumer>, k: nat)
    requires k <= |users|
  {
    forall j :: 0 <= j < k ==> HoldsNone(users[j])
  }

  lemma ResetUserHoldsNone(n: nat, frames: seq<Frame>, s: Shared, i: nat)
    requires FramesOk(n, frames) && UsersOk(n, frames, s.users) && i < |s.users|
    ensures var t := ResetUser(n, frames, s, i);
            && UsersOk(n, frames, t.users) && |t.users| == |s.users| && HoldsNone(t.users[i])
            && forall j :: 0 <= j < |s.users| && j != i ==> t.users[j] == s.users[j]
  {
    hide Insert;
  }

  lemma {:induction false} ResetHoldsNone(n: nat, frames: seq<Frame>, s: Shared, i: nat)
    requires FramesOk(n, frames) && UsersOk(n, frames, s.users) && i <= |s.users|
    requires AllHoldNone(s.users, i)
    ensures var t := ResetFrom(n, frames, s, i); AllHoldNone(t.users, |t.users|)
    decreases |s.users| - i
  {
    hide HoldsNone;
    if i < |s.users| {
      ResetUserHoldsNone(n, frames, s, i);
      hide ResetUser;
      ResetHoldsNone(n, frames, ResetUser(n, frames, s, i), i + 1);
    }
  }

  lemma ResetGuarded(r: Ring)
    requires Sound(r) && IndexOk(r)
    ensures Fit(After(r, Table(ResetAll))) && IndexOk(After(r, Table(ResetAll)))
  {
    CallSound(r, Table(ResetAll));
    hide TableOk, ResetFrom;
    ResetHoldsNone(r.n, r.frames, r.shared, 0);
  }

  /** Every careful call keeps it. */
  lemma CallGuarded(r: Ring, call: Call)
    requires Sound(r) && IndexOk(r) && CallOk(r, call) && Careful(r, call)
    ensures Fit(After(r, call)) && IndexOk(After(r, call))
  {
    CallSound(r, call);
    hide TableOk;
    match call
    case Table(op) =>
      if op.MoveBlocker? {
        OvertakeGuarded(r, op.user, op.index, op.wait);
      } else if op.ResetAll? {
        ResetGuarded(r);
      } else {
        ConsumerGuarded(r, op);
      }
    case RequestWrite(size, align, blocking) =>
    case CommitWrite(bytes) => CommitGuarded(r, bytes);
  }

  /** A ring with at least three index slots whose consumers have been given nothing. */
  ghost predicate Untouched(r: Ring) {
    Fresh(r) && |r.frames| >= 3 && forall i :: 0 <= i < |r.shared.users| ==> r.shared.users[i].state.Free?
  }

  lemma {:induction false} GuardedKeeps(r: Ring, calls: seq<Call>)
    requires Untouched(r) && Sound(r) && Guarded(r, calls)
    ensures IndexOk(RunCalls(r, calls))
  {
    hide IndexOk, Careful;
    if calls == [] {
      FreshIndexOk(r);
    } else {
      GuardedKeeps(r, calls[..|calls| - 1]);
      var t, call := RunCalls(r, calls[..|calls| - 1]), calls[|calls| - 1];
      if CallOk(t, call) {
        CallGuarded(t, call);
      }
    }
  }

  lemma FreshIndexOk(r: Ring)
    requires Untouched(r)
    ensures IndexOk(r)
  {
  }

  /** In a guarded run no commit overwrites the index entry of a frame that is held. */
  lemma {:induction false} GuardedSlotsFree(r: Ring, calls: seq<Call>)
    requires Untouched(r) && Sound(r) && Guarded(r, calls)
    ensures SlotsFree(r, calls)
  {
    hide IndexOk, Careful, SlotFree;
    if calls != [] {
      GuardedSlotsFree(r, calls[..|calls| - 1]);
      GuardedKeeps(r, calls[..|calls| - 1]);
      IndexOkSlotFree(RunCalls(r, calls[..|calls| - 1]));
    }
  }

  /** So GrantsInRunsExactly applies to it. */
  lemma GrantsInGuardedRuns(r: Ring, calls: seq<Call>)
    requires Untouched(r) && Sound(r) && Guarded(r, calls)
    ensures var t := RunCalls(r, calls);
            var us, hs := t.shared.users, Holes(t);
            GrantsFree(t.n, t.offset, us, hs) <==> SafeOffset(t.n, t.offset, us, hs)
  {
    GuardedSlotsFree(r, calls);
    GrantsInRunsExactly(r, calls);
  }

  /** Reading through the search is careful. */
  lemma ReadIsCareful(r: Ring, kinds: seq<nat>, user: nat, kind: nat)
    requires Fit(r) && |kinds| == |r.frames| && UserOk(r.shared, user)
    ensures CallOk(r, Table(ReadOp(r, kinds, user, kind))) && Careful(r, Table(ReadOp(r, kinds, user, kind)))
  {
    if NextFrame(kinds, r.shared.users[user].index, r.index, kind).At? {
      FoundBetween(kinds, r.shared.users[user].index, r.index, kind);
    }
  }

  // ------------------------------------------------------------ RequestWriteFrame

  lemma RunSnoc(r: Ring, a: seq<Call>, call: Call)
    requires Sound(r)
    ensures RunCalls(r, a + [call]) == (if CallOk(RunCalls(r, a), call) then After(RunCalls(r, a), call) else RunCalls(r, a))
  {
    hide After, CallOk, Sound;
    assert (a + [call])[..|a|] == a;
  }

  lemma GuardedSnoc(r: Ring, a: seq<Call>, call: Call)
    requires Sound(r)
    ensures Guarded(r, a + [call]) <==> Guarded(r, a) && (CallOk(RunCalls(r, a), call) ==> Careful(RunCalls(r, a), call))
  {
    hide CallOk, Careful, RunCalls, Sound;
    assert (a + [call])[..|a|] == a;
  }

  lemma LastOff(b: seq<Call>)
    requires b != []
    ensures b == b[..|b| - 1] + [b[|b| - 1]]
  {
  }

  lemma Regroup(a: seq<Call>, b: seq<Call>, call: Call)
    ensures a + (b + [call]) == (a + b) + [call]
  {
  }

  lemma NothingRun(r: Ring, a: seq<Call>)
    requires Sound(r)
    ensures a + [] == a && RunCalls(r, []) == r && Guarded(r, [])
  {
  }

  lemma {:induction false} RunConcat(r: Ring, a: seq<Call>, b: seq<Call>)
    requires Sound(r)
    ensures RunCalls(r, a + b) == RunCalls(RunCalls(r, a), b)
  {
    hide RunCalls, After, CallOk, Sound;
    if b == [] {
      NothingRun(RunCalls(r, a), a);
    } else {
      var front, call := b[..|b| - 1], b[|b| - 1];
      LastOff(b);
      Regroup(a, front, call);
      RunConcat(r, a, front);
      RunSnoc(r, a + front, call);
      RunSnoc(RunCalls(r, a), front, call);
    }
  }

  lemma {:induction false} GuardedConcat(r: Ring, a: seq<Call>, b: seq<Call>)
    requires Sound(r) && Guarded(r, a) && Guarded(RunCalls(r, a), b)
    ensures Guarded(r, a + b)
  {
    hide RunCalls, After, CallOk, Sound, Careful, Guarded;
    if b == [] {
      NothingRun(r, a);
    } else {
      var front, call := b[..|b| - 1], b[|b| - 1];
      LastOff(b);
      Regroup(a, front, call);
      GuardedSnoc(RunCalls(r, a), front, call);
      GuardedConcat(r, a, front);
      RunConcat(r, a, front);
      GuardedSnoc(r, a + front, call);
    }
  }

  /** The calls MoveAllBlockers makes, and whether it came upon an I frame. */
  datatype Moving = Moving(calls: seq<Call>, seen: bool)

  /** A blocker waits for an I frame only if neither it nor one before it was moved to one. */
  ghost function Moves(r: Ring, kinds: seq<nat>, blockers: seq<nat>): (m: Moving)
    requires Sound(r) && |kinds| == |r.frames|
  {
    if blockers == [] then Moving([], false)
    else
      var k := |blockers| - 1;
      MoveNext(r, kinds, Moves(r, kinds, blockers[..k]), blockers[k])
  }

  /** One turn of its loop. */
  ghost function MoveNext(r: Ring, kinds: seq<nat>, m: Moving, user: nat): Moving
    requires Sound(r) && |kinds| == |r.frames|
  {
    var t := RunCalls(r, m.calls);
    if user < |t.shared.users| then
      var x := Target(kinds, t.shared.users[user].index, t.index);
      Moving(m.calls + [Table(MoveBlocker(user, x.index, !(m.seen || x.iFrame)))], m.seen || x.iFrame)
    else m
  }

  /** The consumers in the way stop a caller that may block. */
  ghost predicate GivesUp(r: Ring, blocking: bool)
    requires Sound(r)
  {
    blocking && IndexBlockers(r.shared.users, |r.frames|, r.index) != []
  }

  /** The calls RequestWriteFrame makes in at most that many attempts: each looks for consumers
      in the way of the next slot and moves them, requests the bytes, and if they are refused
      moves those that are named; a caller that may block gives up instead of moving anybody. */
  ghost function Attempts(r: Ring, kinds: seq<nat>, size: nat, align: nat, blocking: bool, tries: nat): seq<Call>
    requires Sound(r) && |kinds| == |r.frames|
    decreases tries
  {
    if tries == 0 || GivesUp(r, blocking) then []
    else if blocking || Answer(r, kinds, size, align).Granted? then Attempt(r, kinds, size, align)
    else
      var a := Refusal(r, kinds, size, align);
      a + Attempts(RunCalls(r, a), kinds, size, align, blocking, tries - 1)
  }

  /** An attempt, and the moves of those a refusal names. */
  ghost function Refusal(r: Ring, kinds: seq<nat>, size: nat, align: nat): seq<Call>
    requires Sound(r) && |kinds| == |r.frames|
  {
    var a := Attempt(r, kinds, size, align);
    a + Moves(RunCalls(r, a), kinds, NamedBy(Answer(r, kinds, size, align))).calls
  }

  function NamedBy(out: Outcome): seq<nat> {
    match out
    case Refused(blockers) => blockers
    case _ => []
  }

  ghost function Cleared(r: Ring, kinds: seq<nat>): seq<Call>
    requires Sound(r) && |kinds| == |r.frames|
  {
    Moves(r, kinds, IndexBlockers(r.shared.users, |r.frames|, r.index)).calls
  }

  ghost function Attempt(r: Ring, kinds: seq<nat>, size: nat, align: nat): seq<Call>
    requires Sound(r) && |kinds| == |r.frames|
  {
    Cleared(r, kinds) + [RequestWrite(size, align, false)]
  }

  ghost function Answer(r: Ring, kinds: seq<nat>, size: nat, align: nat): Outcome
    requires Sound(r) && |kinds| == |r.frames|
  {
    Asked(RunCalls(r, Cleared(r, kinds)), size, align, false)
  }

  // ------------------------------------------------------- it makes guarded calls

  ghost predicate Distinct(blockers: seq<nat>) {
    forall i, j :: 0 <= i < j < |blockers| ==> blockers[i] != blockers[j]
  }

  lemma {:induction false} IndexBlockersDistinct(users: seq<Consumer>, f: nat, p: nat)
    requires p < f
    ensures Distinct(IndexBlockers(users, f, p))
  {
    if users != [] {
      var front := users[..|users| - 1];
      IndexBlockersDistinct(front, f, p);
      var b := IndexBlockers(front, f, p);
      forall i | 0 <= i < |b|
        ensures b[i] < |front|
      {
        IndexBlockersExactly(front, f, p, b[i]);
        assert b[i] in b;
      }
    }
  }

  /** t is r with some consumers moved. */
  ghost predicate OnlyMoved(r: Ring, t: Ring) {
    && t == r.(shared := t.shared) && |t.shared.users| == |r.shared.users|
    && forall i :: 0 <= i < |r.shared.users| ==> Installed(t.shared.users[i]) == Installed(r.shared.users[i])
  }

  lemma OneMoved(r: Ring, call: Call)
    requires Sound(r) && call.Table? && call.op.MoveBlocker? && CallOk(r, call)
    ensures var t := After(r, call);
            && OnlyMoved(r, t) && t.shared.users[call.op.user].index == call.op.index
            && forall i :: 0 <= i < |r.shared.users| && i != call.op.user ==> t.shared.users[i] == r.shared.users[i]
  {
    hide Insert, HeldSpan;
  }

  /** Moving blockers changes nothing but the consumers and the table, and is careful while
      no grant is out. */
  lemma {:induction false} MovesAreCareful(r: Ring, kinds: seq<nat>, blockers: seq<nat>)
    requires Sound(r) && |kinds| == |r.frames| && r.last == 0
    ensures OnlyMoved(r, RunCalls(r, Moves(r, kinds, blockers).calls)) && Guarded(r, Moves(r, kinds, blockers).calls)
  {
    if blockers != [] {
      var k := |blockers| - 1;
      MovesAreCareful(r, kinds, blockers[..k]);
      NextMove(r, kinds, blockers);
      hide OnlyMoved, Moves, Target;
      var m, calls := Moves(r, kinds, blockers[..k]).calls, Moves(r, kinds, blockers).calls;
      if calls != m {
        var t, call := RunCalls(r, m), calls[|m|];
        LastKept(r, t);
        if CallOk(t, call) {
          OneMoved(t, call);
          MovedTwice(r, t, After(t, call));
        }
      }
    }
  }

  lemma LastKept(r: Ring, t: Ring)
    requires OnlyMoved(r, t)
    ensures t.last == r.last
  {
  }

  lemma MovedTwice(r: Ring, t: Ring, u: Ring)
    requires OnlyMoved(r, t) && OnlyMoved(t, u)
    ensures OnlyMoved(r, u)
  {
  }

  /** One more blocker is one more call, or none. */
  lemma NextMove(r: Ring, kinds: seq<nat>, blockers: seq<nat>)
    requires Sound(r) && |kinds| == |r.frames| && blockers != []
    ensures var k := |blockers| - 1;
            var m, calls := Moves(r, kinds, blockers[..k]).calls, Moves(r, kinds, blockers).calls;
            calls == m ||
            (&& |calls| == |m| + 1 && calls[..|m|] == m
             && calls[|m|].Table? && calls[|m|].op.MoveBlocker? && calls[|m|].op.user == blockers[k])
  {
  }

  /** Those in the way of the next slot of r. */
  ghost predicate AllInTheWay(r: Ring, blockers: seq<nat>)
    requires Fit(r)
  {
    forall i :: 0 <= i < |blockers| ==> blockers[i] < |r.shared.users| && InTheWay(r.shared.users[blockers[i]], |r.frames|, r.index)
  }

  /** Of the consumers of r, those named are out of the way in t and the others are as before. */
  ghost predicate OutOfTheWay(r: Ring, t: Ring, blockers: seq<nat>)
    requires Fit(r) && |t.shared.users| == |r.shared.users|
  {
    forall i: nat :: i < |r.shared.users| ==>
      if i in blockers then !InTheWay(t.shared.users[i], |r.frames|, r.index) else t.shared.users[i] == r.shared.users[i]
  }

  lemma FrontDistinct(blockers: seq<nat>)
    requires Distinct(blockers) && blockers != []
    ensures var k := |blockers| - 1;
            && Distinct(blockers[..k]) && blockers[k] !in blockers[..k]
            && forall i :: i in blockers <==> i in blockers[..k] || i == blockers[k]
  {
    assert blockers == blockers[..|blockers| - 1] + [blockers[|blockers| - 1]];
  }

  /** The call made for the last blocker. */
  lemma LastMove(r: Ring, kinds: seq<nat>, m: Moving, user: nat)
    requires Sound(r) && |kinds| == |r.frames| && UserOk(RunCalls(r, m.calls).shared, user)
    ensures var t, u := RunCalls(r, m.calls), RunCalls(r, MoveNext(r, kinds, m, user).calls);
            && |u.shared.users| == |t.shared.users|
            && u.shared.users[user].index == Target(kinds, t.shared.users[user].index, t.index).index
            && forall i :: 0 <= i < |t.shared.users| && i != user ==> u.shared.users[i] == t.shared.users[i]
  {
    var t := RunCalls(r, m.calls);
    var x := Target(kinds, t.shared.users[user].index, t.index);
    hide RunCalls, Target, After, MoveNext, TableOk, UsersOk, FramesOk;
    MoveIsMade(r, kinds, m, user, x.index, x.iFrame);
    OneMoved(t, Table(MoveBlocker(user, x.index, !(m.seen || x.iFrame))));
  }

  /** The call made in that turn, when the search came up with target. */
  lemma MoveIsMade(r: Ring, kinds: seq<nat>, m: Moving, user: nat, target: nat, iFrame: bool)
    requires Sound(r) && |kinds| == |r.frames| && UserOk(RunCalls(r, m.calls).shared, user)
    requires var t := RunCalls(r, m.calls); Destination(target, iFrame) == Target(kinds, t.shared.users[user].index, t.index)
    ensures var t, call := RunCalls(r, m.calls), Table(MoveBlocker(user, target, !(m.seen || iFrame)));
            Fit(t) && CallOk(t, call) && RunCalls(r, MoveNext(r, kinds, m, user).calls) == After(t, call)
    ensures MoveNext(r, kinds, m, user).seen == (m.seen || iFrame)
  {
    hide RunCalls, Target, After, TableOk, UsersOk, FramesOk;
    RunSnoc(r, m.calls, Table(MoveBlocker(user, target, !(m.seen || iFrame))));
  }

  /** Moving those in the way gets them out of it. */
  lemma {:induction false} MovesOutOfTheWay(r: Ring, kinds: seq<nat>, blockers: seq<nat>)
    requires Sound(r) && |kinds| == |r.frames| >= 3 && r.last == 0 && Distinct(blockers) && AllInTheWay(r, blockers)
    ensures OutOfTheWay(r, RunCalls(r, Moves(r, kinds, blockers).calls), blockers)
  {
    if blockers != [] {
      var k := |blockers| - 1;
      FrontDistinct(blockers);
      MovesOutOfTheWay(r, kinds, blockers[..k]);
      MovesAreCareful(r, kinds, blockers[..k]);
      var t := RunCalls(r, Moves(r, kinds, blockers[..k]).calls);
      assert t.shared.users[blockers[k]] == r.shared.users[blockers[k]];
      hide RunCalls, Moves, Sound, Distinct, Target;
      LastMove(r, kinds, Moves(r, kinds, blockers[..k]), blockers[k]);
      TargetOutOfTheWay(kinds, r.index);
    }
  }

  /** What IndexFindBlocker finds: all that are in the way, each once. */
  lemma BlockersFound(users: seq<Consumer>, f: nat, p: nat)
    requires p < f
    ensures var b := IndexBlockers(users, f, p);
            && Distinct(b) && (forall k :: 0 <= k < |b| ==> b[k] < |users| && InTheWay(users[b[k]], f, p))
            && forall i: nat :: i < |users| && InTheWay(users[i], f, p) ==> i in b
  {
    var b := IndexBlockers(users, f, p);
    IndexBlockersDistinct(users, f, p);
    forall k | 0 <= k < |b|
      ensures b[k] < |users| && InTheWay(users[b[k]], f, p)
    {
      IndexBlockersExactly(users, f, p, b[k]);
      assert b[k] in b;
    }
    forall i: nat | i < |users| && InTheWay(users[i], f, p)
      ensures i in b
    {
      IndexBlockersExactly(users, f, p, i);
    }
  }

  lemma NobodyLeft(r: Ring, t: Ring, blockers: seq<nat>)
    requires Fit(r) && Fit(t) && OnlyMoved(r, t) && OutOfTheWay(r, t, blockers)
    requires forall i: nat :: i < |r.shared.users| && InTheWay(r.shared.users[i], |r.frames|, r.index) ==> i in blockers
    ensures NobodyInTheWay(t)
  {
  }

  /** Once the consumers found have been moved, nobody is in the way. */
  lemma ClearedFree(r: Ring, kinds: seq<nat>)
    requires Sound(r) && |kinds| == |r.frames| >= 3 && r.last == 0
    ensures var t := RunCalls(r, Cleared(r, kinds));
            OnlyMoved(r, t) && Guarded(r, Cleared(r, kinds)) && NobodyInTheWay(t)
  {
    var blockers := IndexBlockers(r.shared.users, |r.frames|, r.index);
    hide RunCalls, Moves, TableOk, UsersOk, FramesOk, Guarded, InTheWay, OutOfTheWay, OnlyMoved, NobodyInTheWay, Distinct, IndexBlockers;
    BlockersFound(r.shared.users, |r.frames|, r.index);
    MovesAreCareful(r, kinds, blockers);
    MovesOutOfTheWay(r, kinds, blockers);
    NobodyLeft(r, RunCalls(r, Cleared(r, kinds)), blockers);
  }

  predicate Divides(align: nat, n: nat) {
    align > 0 ==> n % align == 0
  }

  /** One attempt is guarded; a grant leaves nobody in the way, and a refusal no grant. */
  lemma AttemptGuarded(r: Ring, kinds: seq<nat>, size: nat, align: nat)
    requires Sound(r) && |kinds| == |r.frames| >= 3 && r.last == 0 && Divides(align, r.n)
    ensures Guarded(r, Attempt(r, kinds, size, align))
    ensures var t := RunCalls(r, Attempt(r, kinds, size, align));
            && NobodyInTheWay(t) && |t.frames| == |r.frames| && t.n == r.n
            && (!Answer(r, kinds, size, align).Granted? ==> t.last == 0)
  {
    ClearedFree(r, kinds);
    hide RunCalls, Cleared, Sound, Guarded, InTheWay, Asked;
    var t := RunCalls(r, Cleared(r, kinds));
    GuardedSnoc(r, Cleared(r, kinds), RequestWrite(size, align, false));
    RunSnoc(r, Cleared(r, kinds), RequestWrite(size, align, false));
  }

  lemma RefusalGuarded(r: Ring, kinds: seq<nat>, size: nat, align: nat)
    requires Sound(r) && |kinds| == |r.frames| >= 3 && r.last == 0 && Divides(align, r.n)
    requires !Answer(r, kinds, size, align).Granted?
    ensures Guarded(r, Refusal(r, kinds, size, align))
    ensures var t := RunCalls(r, Refusal(r, kinds, size, align));
            |t.frames| == |r.frames| && t.n == r.n && t.last == 0
  {
    AttemptGuarded(r, kinds, size, align);
    hide RunCalls, Sound, Guarded, InTheWay, Moves, Attempt, Answer;
    var a := Attempt(r, kinds, size, align);
    var t, named := RunCalls(r, a), NamedBy(Answer(r, kinds, size, align));
    MovesAreCareful(t, kinds, named);
    GuardedConcat(r, a, Moves(t, kinds, named).calls);
    RunConcat(r, a, Moves(t, kinds, named).calls);
  }

  /** The calls are guarded, and while a grant is out after them nobody is in its way. */
  ghost predicate GrantGuarded(r: Ring, calls: seq<Call>)
    requires Sound(r)
  {
    Guarded(r, calls) && (RunCalls(r, calls).last > 0 ==> NobodyInTheWay(RunCalls(r, calls)))
  }

  lemma GrantGuardedConcat(r: Ring, a: seq<Call>, b: seq<Call>)
    requires Sound(r) && Guarded(r, a) && GrantGuarded(RunCalls(r, a), b)
    ensures GrantGuarded(r, a + b)
  {
    hide RunCalls, Guarded, NobodyInTheWay, Sound;
    GuardedConcat(r, a, b);
    RunConcat(r, a, b);
  }

  lemma NoAttempt(r: Ring)
    requires Sound(r) && r.last == 0
    ensures GrantGuarded(r, [])
  {
    NothingRun(r, []);
  }

  lemma OneAttempt(r: Ring, kinds: seq<nat>, size: nat, align: nat)
    requires Sound(r) && |kinds| == |r.frames| >= 3 && r.last == 0 && Divides(align, r.n)
    ensures GrantGuarded(r, Attempt(r, kinds, size, align))
  {
    AttemptGuarded(r, kinds, size, align);
  }

  /** One attempt after the other. */
  lemma AttemptsUnfold(r: Ring, kinds: seq<nat>, size: nat, align: nat, blocking: bool, tries: nat)
    requires Sound(r) && |kinds| == |r.frames|
    ensures tries == 0 || GivesUp(r, blocking) ==> Attempts(r, kinds, size, align, blocking, tries) == []
    ensures tries > 0 && !GivesUp(r, blocking) ==>
              Attempts(r, kinds, size, align, blocking, tries)
              == if blocking || Answer(r, kinds, size, align).Granted? then Attempt(r, kinds, size, align)
                 else Refusal(r, kinds, size, align)
                      + Attempts(RunCalls(r, Refusal(r, kinds, size, align)), kinds, size, align, blocking, tries - 1)
  {
    hide RunCalls, TableOk, Attempt, Answer, Refusal, IndexBlockers;
  }

  /** RequestWriteFrame makes guarded calls only, and when it is granted bytes nobody is in
      the way of the slot after the one they will be given. */
  lemma {:induction false} AttemptsGuarded(r: Ring, kinds: seq<nat>, size: nat, align: nat, blocking: bool, tries: nat)
    requires Sound(r) && |kinds| == |r.frames| >= 3 && r.last == 0 && Divides(align, r.n)
    ensures GrantGuarded(r, Attempts(r, kinds, size, align, blocking, tries))
    decreases tries
  {
    hide RunCalls, Sound, Guarded, GrantGuarded, Divides, Attempts, Attempt, Answer, Refusal, GivesUp, Fit;
    AttemptsUnfold(r, kinds, size, align, blocking, tries);
    if tries == 0 || GivesUp(r, blocking) {
      NoAttempt(r);
    } else if blocking || Answer(r, kinds, size, align).Granted? {
      OneAttempt(r, kinds, size, align);
    } else {
      var a := Refusal(r, kinds, size, align);
      var t := RunCalls(r, a);
      RefusalGuarded(r, kinds, size, align);
      AttemptsGuarded(t, kinds, size, align, blocking, tries - 1);
      GrantGuardedConcat(r, a, Attempts(t, kinds, size, align, blocking, tries - 1));
    }
  }

  // ---------------------------------------------------------- what the loops need

  lemma MovesSnoc(r: Ring, kinds: seq<nat>, front: seq<nat>, user: nat)
    requires Sound(r) && |kinds| == |r.frames|
    ensures Moves(r, kinds, front + [user]) == MoveNext(r, kinds, Moves(r, kinds, front), user)
  {
    hide RunCalls, Target, Sound, MoveNext;
    assert (front + [user])[..|front|] == front;
  }

  /** One turn of RequestWriteFrame: the rest of its calls. */
  lemma AttemptsTurn(r: Ring, kinds: seq<nat>, size: nat, align: nat, blocking: bool, tries: nat)
    requires Sound(r) && |kinds| == |r.frames| && tries > 0 && !GivesUp(r, blocking)
    ensures !blocking && !Answer(r, kinds, size, align).Granted? ==>
              var t := RunCalls(r, Refusal(r, kinds, size, align));
              RunCalls(r, Attempts(r, kinds, size, align, blocking, tries))
              == RunCalls(t, Attempts(t, kinds, size, align, blocking, tries - 1))
  {
    hide RunCalls, Sound, Attempts, Attempt, Answer, Refusal, GivesUp, Fit;
    AttemptsUnfold(r, kinds, size, align, blocking, tries);
    if !blocking && !Answer(r, kinds, size, align).Granted? {
      var a := Refusal(r, kinds, size, align);
      RunConcat(r, a, Attempts(RunCalls(r, a), kinds, size, align, blocking, tries - 1));
    }
  }
}
