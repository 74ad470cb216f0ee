/** Where MoveAllBlockers puts the consumers it moves, in the terms of the frame index. */
module RingMoves {
  import opened RingGeometry
  import opened RingAlloc
  import opened RingTable
  import opened RingRuns
  import opened RingIndex

  // ---------------------------------------------------------------- the destination

  /** Frame x comes strictly after frame i and before the producer's, going round. */
  predicate Between(f: nat, i: nat, p: nat, x: nat)
    requires i < f && p < f && x < f
  {
    0 < Fwd(f, i, x) && (i == p || Fwd(f, i, x) < Fwd(f, i, p))
  }

  ghost predicate SomeIFrame(kinds: seq<nat>, i: nat, p: nat)
    requires i < |kinds| && p < |kinds|
  {
    exists x :: 0 <= x < |kinds| && kinds[x] == 0 && Between(|kinds|, i, p, x)
  }

  /** x is the first I frame there. */
  ghost predicate FirstIFrame(kinds: seq<nat>, i: nat, p: nat, x: nat)
    requires i < |kinds| && p < |kinds|
  {
    && x < |kinds| && kinds[x] == 0 && Between(|kinds|, i, p, x)
    && forall y :: 0 <= y < |kinds| && kinds[y] == 0 && Between(|kinds|, i, p, y) ==> Fwd(|kinds|, i, x) <= Fwd(|kinds|, i, y)
  }

  /** The frame a consumer whose next frame is i is moved to. */
  ghost predicate MovesTo(kinds: seq<nat>, i: nat, p: nat, x: nat)
    requires i < |kinds| && p < |kinds|
  {
    if SomeIFrame(kinds, i, p) then FirstIFrame(kinds, i, p, x)
    else x == if p == 0 then |kinds| - 1 else p - 1
  }

  lemma {:induction false} NoneFound(kinds: seq<nat>, from: nat, p: nat, y: nat)
    requires from < |kinds| && p < |kinds| && y < |kinds| && NextFrame(kinds, from, p, I_SLICE).NoFrame?
    ensures Fwd(|kinds|, from, y) < Fwd(|kinds|, from, p) ==> kinds[y] != 0
    decreases Fwd(|kinds|, from, p)
  {
    if from != p {
      NoneFound(kinds, Next(|kinds|, from), p, y);
    }
  }

  /** The search starts one frame after i. */
  lemma FromNext(f: nat, i: nat, p: nat, x: nat)
    requires i < f && p < f && x < f
    ensures Fwd(f, Next(f, i), x) < Fwd(f, Next(f, i), p) <==> Between(f, i, p, x)
    ensures x != i ==> Fwd(f, Next(f, i), x) == Fwd(f, i, x) - 1
  {
  }

  lemma TargetIs(kinds: seq<nat>, i: nat, p: nat)
    requires i < |kinds| && p < |kinds|
    ensures Target(kinds, i, p).iFrame <==> SomeIFrame(kinds, i, p)
    ensures MovesTo(kinds, i, p, Target(kinds, i, p).index)
  {
    var f, from := |kinds|, Next(|kinds|, i);
    StepBack(f, p);
    match NextFrame(kinds, from, p, I_SLICE)
    case At(x) =>
      NextFrameExactly(kinds, from, p, I_SLICE, x);
      FromNext(f, i, p, x);
      assert Between(f, i, p, x);
      forall y | 0 <= y < f && kinds[y] == 0 && Between(f, i, p, y)
        ensures Fwd(f, i, x) <= Fwd(f, i, y)
      {
        FromNext(f, i, p, y);
        assert Matches(kinds, I_SLICE, y);
      }
    case NoFrame =>
      forall y | 0 <= y < f && Between(f, i, p, y)
        ensures kinds[y] != 0
      {
        FromNext(f, i, p, y);
        NoneFound(kinds, from, p, y);
      }
  }

  // ---------------------------------------------------------- one MoveAllBlockers

  /** What an overtaken consumer becomes: it starts over at frame x, and one that was given
      something is marked as moved, and blocked. */
  predicate Landed(frames: seq<Frame>, c: Consumer, x: nat, wait: bool, d: Consumer)
    requires x < |frames|
  {
    && d.name == c.name && d.index == x && d.offset == frames[x].offset && d.refStart == x && d.refEnd == x
    && d.waitIFrame == wait
    && (if c.state.Free? then d.state.Free? && d.moved == c.moved else d.state.Blocked? && d.moved)
  }

  lemma MoveLands(r: Ring, user: nat, x: nat, wait: bool)
    requires Sound(r) && CallOk(r, Table(MoveBlocker(user, x, wait)))
    ensures var t := After(r, Table(MoveBlocker(user, x, wait)));
            && |t.shared.users| == |r.shared.users| && t == r.(shared := t.shared)
            && Landed(r.frames, r.shared.users[user], x, wait, t.shared.users[user])
            && forall i :: 0 <= i < |r.shared.users| && i != user ==> t.shared.users[i] == r.shared.users[i]
  {
    hide Insert, HeldSpan;
  }

  /** Consumer user of r is, in t, where MoveAllBlockers puts it. */
  ghost predicate PutAhead(r: Ring, t: Ring, kinds: seq<nat>, user: nat, wait: bool)
    requires Fit(r) && |kinds| == |r.frames|
  {
    && user < |r.shared.users| == |t.shared.users|
    && exists x :: 0 <= x < |kinds| && MovesTo(kinds, r.shared.users[user].index, r.index, x)
                   && Landed(r.frames, r.shared.users[user], x, wait, t.shared.users[user])
  }

  /** An I frame was found for one of the blockers. */
  ghost predicate IFrameSeen(r: Ring, kinds: seq<nat>, blockers: seq<nat>)
    requires Fit(r) && |kinds| == |r.frames|
  {
    exists k :: 0 <= k < |blockers| && blockers[k] < |r.shared.users| && SomeIFrame(kinds, r.shared.users[blockers[k]].index, r.index)
  }

  /** Every blocker is put ahead, and waits for an I frame exactly when none was found for it
      or for a blocker before it; the other consumers, the frames and the producer stay. */
  ghost predicate AllPutAhead(r: Ring, t: Ring, kinds: seq<nat>, blockers: seq<nat>)
    requires Fit(r) && |kinds| == |r.frames|
  {
    && t == r.(shared := t.shared) && |t.shared.users| == |r.shared.users|
    && (forall k :: 0 <= k < |blockers| ==> PutAhead(r, t, kinds, blockers[k], !IFrameSeen(r, kinds, blockers[..k + 1])))
    && forall i: nat :: i < |r.shared.users| && i !in blockers ==> t.shared.users[i] == r.shared.users[i]
  }

  ghost predicate AllInstalled(r: Ring, blockers: seq<nat>) {
    forall i :: 0 <= i < |blockers| ==> UserOk(r.shared, blockers[i])
  }

  lemma SeenSoFar(r: Ring, kinds: seq<nat>, blockers: seq<nat>)
    requires Fit(r) && |kinds| == |r.frames| && blockers != [] && AllInstalled(r, blockers)
    ensures var k := |blockers| - 1;
            IFrameSeen(r, kinds, blockers)
            <==> IFrameSeen(r, kinds, blockers[..k]) || SomeIFrame(kinds, r.shared.users[blockers[k]].index, r.index)
  {
    hide SomeIFrame;
    var k := |blockers| - 1;
    if IFrameSeen(r, kinds, blockers[..k]) {
      var j :| 0 <= j < k && SomeIFrame(kinds, r.shared.users[blockers[..k][j]].index, r.index);
      assert blockers[j] == blockers[..k][j];
    }
    if IFrameSeen(r, kinds, blockers) {
      var j :| 0 <= j < |blockers| && SomeIFrame(kinds, r.shared.users[blockers[j]].index, r.index);
      if j < k {
        assert blockers[j] == blockers[..k][j];
      }
    }
  }

  /** One more blocker. */
  lemma OneMoreAhead(r: Ring, t: Ring, u: Ring, kinds: seq<nat>, blockers: seq<nat>, x: nat)
    requires Fit(r) && |kinds| == |r.frames| && blockers != [] && Distinct(blockers) && AllInstalled(r, blockers)
    requires AllPutAhead(r, t, kinds, blockers[..|blockers| - 1])
    requires u == t.(shared := u.shared) && |u.shared.users| == |t.shared.users| && x < |kinds|
    requires MovesTo(kinds, r.shared.users[blockers[|blockers| - 1]].index, r.index, x)
    requires var b := blockers[|blockers| - 1];
             && Landed(r.frames, r.shared.users[b], x, !IFrameSeen(r, kinds, blockers), u.shared.users[b])
             && forall i :: 0 <= i < |t.shared.users| && i != b ==> u.shared.users[i] == t.shared.users[i]
    ensures AllPutAhead(r, u, kinds, blockers)
  {
    hide MovesTo, Landed, IFrameSeen;
    var k := |blockers| - 1;
    FrontDistinct(blockers);
    assert blockers[..k + 1] == blockers;
    assert PutAhead(r, u, kinds, blockers[k], !IFrameSeen(r, kinds, blockers));
    forall j | 0 <= j < k
      ensures PutAhead(r, u, kinds, blockers[j], !IFrameSeen(r, kinds, blockers[..j + 1]))
    {
      assert blockers[..k][j] == blockers[j] && blockers[..k][..j + 1] == blockers[..j + 1];
      assert PutAhead(r, t, kinds, blockers[..k][j], !IFrameSeen(r, kinds, blockers[..k][..j + 1]));
      assert blockers[j] in blockers[..k];
    }
  }

  /** One MoveAllBlockers.  A blocker ends at the first I frame strictly after its own and
      before the producer's, if there is one, and otherwise at the frame before the
      producer's; its offset is that frame's. */
  lemma {:induction false} BlockersLand(r: Ring, kinds: seq<nat>, blockers: seq<nat>)
    requires Sound(r) && |kinds| == |r.frames| && Distinct(blockers) && AllInstalled(r, blockers)
    ensures AllPutAhead(r, RunCalls(r, Moves(r, kinds, blockers).calls), kinds, blockers)
    ensures Moves(r, kinds, blockers).seen <==> IFrameSeen(r, kinds, blockers)
  {
    if blockers != [] {
      var k := |blockers| - 1;
      FrontDistinct(blockers);
      assert AllInstalled(r, blockers[..k]) by { assert forall i :: 0 <= i < k ==> blockers[..k][i] == blockers[i]; }
      BlockersLand(r, kinds, blockers[..k]);
      var m := Moves(r, kinds, blockers[..k]);
      var t, b := RunCalls(r, m.calls), blockers[k];
      assert t.shared.users[b] == r.shared.users[b];
      hide RunCalls, Moves, Sound, Distinct, Target, MovesTo, Landed, IFrameSeen, AllPutAhead, TableOk, SomeIFrame, After;
      var x := Target(kinds, t.shared.users[b].index, t.index);
      MoveIsMade(r, kinds, m, b, x.index, x.iFrame);
      TargetIs(kinds, t.shared.users[b].index, t.index);
      SeenSoFar(r, kinds, blockers);
      MoveLands(t, b, x.index, !(m.seen || x.iFrame));
      OneMoreAhead(r, t, RunCalls(r, MoveNext(r, kinds, m, b).calls), kinds, blockers, x.index);
      assert Moves(r, kinds, blockers) == MoveNext(r, kinds, m, b);
    }
  }

  // ------------------------------------------------------------ one RequestWriteFrame

  lemma {:induction false} ShortDistinct(n: nat, w: nat, cs: seq<Consumer>, need: nat)
    requires w < n && ReadersOnRing(n, cs)
    ensures Distinct(Short(n, w, cs, need))
  {
    if cs != [] {
      var front := cs[..|cs| - 1];
      ShortDistinct(n, w, front, need);
      var b := Short(n, w, front, need);
      forall i | 0 <= i < |b|
        ensures b[i] < |front|
      {
        ShortExactly(n, w, front, need, b[i]);
        assert b[i] in b;
      }
    }
  }

  lemma RefusedIsShort(n: nat, w: nat, cs: seq<Consumer>, hs: seq<Span>, size: nat, align: nat, blocking: bool, written: bool)
    requires w < n && ReadersOnRing(n, cs) && AllOnRing(n, hs)
    requires Request(n, w, cs, hs, size, align, blocking, written).Refused?
    ensures Distinct(Request(n, w, cs, hs, size, align, blocking, written).blockers)
  {
    ShortDistinct(n, w, cs, size);
    ShortDistinct(n, w, cs, Needed(n, w, cs, hs, size, align));
  }

  /** RequestWriteFrame first puts ahead those, and only those, whose next frame is in the slot
      after the producer's. */
  lemma ClearedLands(r: Ring, kinds: seq<nat>)
    requires Sound(r) && |kinds| == |r.frames|
    ensures var b := IndexBlockers(r.shared.users, |r.frames|, r.index);
            && (forall i: nat :: i in b <==> i < |r.shared.users| && InTheWay(r.shared.users[i], |r.frames|, r.index))
            && AllPutAhead(r, RunCalls(r, Cleared(r, kinds)), kinds, b)
  {
    var b := IndexBlockers(r.shared.users, |r.frames|, r.index);
    BlockersFound(r.shared.users, |r.frames|, r.index);
    forall i: nat
      ensures i in b <==> i < |r.shared.users| && InTheWay(r.shared.users[i], |r.frames|, r.index)
    {
      IndexBlockersExactly(r.shared.users, |r.frames|, r.index, i);
    }
    hide RunCalls, Moves, TableOk, AllPutAhead, IndexBlockers;
    BlockersLand(r, kinds, b);
  }

  /** The consumers that leave no more room than the request needs, skipped bytes included. */
  ghost predicate LeavesNoRoom(r: Ring, size: nat, align: nat, i: nat)
    requires Fit(r)
  {
    && i < |r.shared.users| && Installed(r.shared.users[i])
    && Writable(r.n, r.offset, r.shared.users[i].offset) <= Needed(r.n, r.offset, r.shared.users, Holes(r), size, align)
  }

  lemma NamedAre(t: Ring, size: nat, align: nat)
    requires Sound(t) && size <= t.n && Asked(t, size, align, false).Refused?
    ensures var b := Asked(t, size, align, false).blockers;
            Distinct(b) && AllInstalled(t, b) && forall i: nat :: i in b <==> LeavesNoRoom(t, size, align, i)
  {
    hide Request, TableOk, Needed, MinWritable, Short, Distinct;
    UsersAreReaders(t);
    RefusedIsShort(t.n, t.offset, t.shared.users, Holes(t), size, align, false, t.written);
    RefusalNamesBlockers(t.n, t.offset, t.shared.users, Holes(t), size, align, false, t.written);
    var b := Asked(t, size, align, false).blockers;
    assert forall i :: 0 <= i < |b| ==> b[i] in b;
  }

  /** When it is refused, it puts ahead those, and only those, that leave too little room, and
      then starts over. */
  lemma RefusalLands(r: Ring, kinds: seq<nat>, size: nat, align: nat)
    requires Sound(r) && |kinds| == |r.frames| && size <= r.n && Answer(r, kinds, size, align).Refused?
    ensures var t, b := RunCalls(r, Cleared(r, kinds)), Answer(r, kinds, size, align).blockers;
            && (forall i: nat :: i in b <==> LeavesNoRoom(t, size, align, i))
            && AllPutAhead(t, RunCalls(r, Refusal(r, kinds, size, align)), kinds, b)
  {
    hide RunCalls, Moves, Cleared, TableOk, AllPutAhead, LeavesNoRoom, Asked, Distinct, AllInstalled;
    var t, a := RunCalls(r, Cleared(r, kinds)), Attempt(r, kinds, size, align);
    NamedAre(t, size, align);
    RefusedKeeps(r, kinds, size, align);
    var b := Answer(r, kinds, size, align).blockers;
    BlockersLand(t, kinds, b);
    RunConcat(r, a, Moves(t, kinds, b).calls);
  }

  function Requests(calls: seq<Call>): nat {
    if calls == [] then 0 else Requests(calls[..|calls| - 1]) + (if calls[|calls| - 1].RequestWrite? then 1 else 0)
  }

  lemma {:induction false} RequestsAdd(a: seq<Call>, b: seq<Call>)
    ensures Requests(a + b) == Requests(a) + Requests(b)
  {
    if b == [] {
      assert a + b == a;
    } else {
      RequestsAdd(a, b[..|b| - 1]);
      assert (a + b)[..|a + b| - 1] == a + b[..|b| - 1];
    }
  }

  lemma {:induction false} MovesRequestNothing(r: Ring, kinds: seq<nat>, blockers: seq<nat>)
    requires Sound(r) && |kinds| == |r.frames|
    ensures Requests(Moves(r, kinds, blockers).calls) == 0
  {
    if blockers != [] {
      MovesRequestNothing(r, kinds, blockers[..|blockers| - 1]);
      NextMove(r, kinds, blockers);
      hide Moves;
    }
  }

  lemma OneRequest(r: Ring, kinds: seq<nat>, size: nat, align: nat)
    requires Sound(r) && |kinds| == |r.frames|
    ensures Requests(Attempt(r, kinds, size, align)) == Requests(Refusal(r, kinds, size, align)) == 1
  {
    hide Moves, RunCalls, TableOk;
    var a, one := Attempt(r, kinds, size, align), [RequestWrite(size, align, false)];
    MovesRequestNothing(r, kinds, IndexBlockers(r.shared.users, |r.frames|, r.index));
    RequestsAdd(Cleared(r, kinds), one);
    assert one[..0] == [] && Requests(one) == 1;
    MovesRequestNothing(RunCalls(r, a), kinds, NamedBy(Answer(r, kinds, size, align)));
    RequestsAdd(a, Moves(RunCalls(r, a), kinds, NamedBy(Answer(r, kinds, size, align))).calls);
  }

  /** A caller that may block gets one request if nobody is in the way of the next slot, and
      nobody is moved for it.  Any other makes requests until one is granted, up to tries of
      them: unless it ends with a grant it has made them all. */
  lemma {:induction false} TriesExactly(r: Ring, kinds: seq<nat>, size: nat, align: nat, blocking: bool, tries: nat)
    requires Sound(r) && |kinds| == |r.frames| && r.last == 0 && 0 < size && Divides(align, r.n) && tries > 0
    ensures blocking ==>
              Attempts(r, kinds, size, align, blocking, tries)
              == if IndexBlockers(r.shared.users, |r.frames|, r.index) == [] then [RequestWrite(size, align, false)] else []
    ensures !blocking ==>
              var k := Requests(Attempts(r, kinds, size, align, blocking, tries));
              && 1 <= k <= tries
              && (RunCalls(r, Attempts(r, kinds, size, align, blocking, tries)).last == 0 ==> k == tries)
    decreases tries, 1
  {
    hide RunCalls, TableOk, Attempts, Attempt, Answer, Refusal, Requests, Moves, IndexBlockers;
    AttemptsUnfold(r, kinds, size, align, blocking, tries);
    if blocking {
      if IndexBlockers(r.shared.users, |r.frames|, r.index) == [] {
        AttemptUnhindered(r, kinds, size, align);
      }
    } else {
      OneRequest(r, kinds, size, align);
      if Answer(r, kinds, size, align).Granted? {
        GrantedIsOut(r, kinds, size, align);
      } else {
        TriesOn(r, kinds, size, align, tries);
      }
    }
  }

  lemma {:induction false} TriesOn(r: Ring, kinds: seq<nat>, size: nat, align: nat, tries: nat)
    requires Sound(r) && |kinds| == |r.frames| && r.last == 0 && 0 < size && Divides(align, r.n) && tries > 0
    requires !Answer(r, kinds, size, align).Granted?
    ensures var all := Attempts(r, kinds, size, align, false, tries);
            1 <= Requests(all) <= tries && (RunCalls(r, all).last == 0 ==> Requests(all) == tries)
    decreases tries, 0
  {
    hide RunCalls, TableOk, Attempts, Attempt, Answer, Refusal, Requests, Moves, IndexBlockers, Divides;
    var a := Refusal(r, kinds, size, align);
    var t := RunCalls(r, a);
    AttemptsUnfold(r, kinds, size, align, false, tries);
    OneRequest(r, kinds, size, align);
    StillNoGrant(r, kinds, size, align);
    var rest := Attempts(t, kinds, size, align, false, tries - 1);
    RequestsAdd(a, rest);
    RunConcat(r, a, rest);
    if tries > 1 {
      TriesExactly(t, kinds, size, align, false, tries - 1);
    } else {
      AttemptsUnfold(t, kinds, size, align, false, 0);
      NoRequests();
    }
  }

  lemma NoRequests()
    ensures Requests([]) == 0
  {
  }

  lemma AttemptUnhindered(r: Ring, kinds: seq<nat>, size: nat, align: nat)
    requires Sound(r) && |kinds| == |r.frames| && IndexBlockers(r.shared.users, |r.frames|, r.index) == []
    ensures Attempt(r, kinds, size, align) == [RequestWrite(size, align, false)]
  {
  }

  lemma GrantedIsOut(r: Ring, kinds: seq<nat>, size: nat, align: nat)
    requires Sound(r) && |kinds| == |r.frames| && r.last == 0 && Divides(align, r.n) && Answer(r, kinds, size, align).Granted? && 0 < size
    ensures RunCalls(r, Attempt(r, kinds, size, align)).last == size
  {
    hide Cleared, TableOk, Request, RunCalls;
    RunSnoc(r, Cleared(r, kinds), RequestWrite(size, align, false));
  }

  lemma StillNoGrant(r: Ring, kinds: seq<nat>, size: nat, align: nat)
    requires Sound(r) && |kinds| == |r.frames| && r.last == 0 && !Answer(r, kinds, size, align).Granted?
    ensures var t := RunCalls(r, Refusal(r, kinds, size, align));
            t.last == 0 && |t.frames| == |r.frames| && t.n == r.n
  {
    hide RunCalls, TableOk, Moves, OnlyMoved, Asked, After, Guarded;
    var b, a := IndexBlockers(r.shared.users, |r.frames|, r.index), Attempt(r, kinds, size, align);
    MovesAreCareful(r, kinds, b);
    LastKept(r, RunCalls(r, Cleared(r, kinds)));
    RefusedKeeps(r, kinds, size, align);
    var named := NamedBy(Answer(r, kinds, size, align));
    MovesAreCareful(RunCalls(r, a), kinds, named);
    RunConcat(r, a, Moves(RunCalls(r, a), kinds, named).calls);
    LastKept(RunCalls(r, a), RunCalls(RunCalls(r, a), Moves(RunCalls(r, a), kinds, named).calls));
  }

  lemma RefusedKeeps(r: Ring, kinds: seq<nat>, size: nat, align: nat)
    requires Sound(r) && |kinds| == |r.frames| && !Answer(r, kinds, size, align).Granted?
    ensures RunCalls(r, Attempt(r, kinds, size, align)) == RunCalls(r, Cleared(r, kinds))
  {
    hide Cleared, TableOk, Request, RunCalls;
    RunSnoc(r, Cleared(r, kinds), RequestWrite(size, align, false));
  }

  // ------------------------------------------------- where the other calls leave one

  /** The consumer after its own call.  A read puts it at the first frame, holding up to the
      last.  A commit takes one that was not moved behind the frames it held, and leaves one that
      was where the producer put it.  A discard takes it to the producer, to wait for an I
      frame. */
  predicate StandsAfter(r: Ring, c: Consumer, op: Op, d: Consumer)
    requires Fit(r) && c.refEnd < |r.frames| && c.offset < r.n && (op.RequestRead? ==> op.first < |r.frames|)
  {
    match op
    case RequestRead(user, first, last) =>
      d == c.(index := first, offset := r.frames[first].offset, refStart := first, refEnd := last,
              state := Holding, moved := false, waitIFrame := false)
    case CommitRead(user, bytes) =>
      && d.name == c.name && d.state.Free? && !d.moved
      && (if c.moved then d == c.(state := Free, moved := false)
          else d.index == Next(|r.frames|, c.refEnd) && d.offset == Adv(r.n, c.offset, bytes) && !d.waitIFrame)
    case Discard(user, index, offset) =>
      d.name == c.name && d.index == r.index && d.offset == r.offset && d.state.Free? && !d.moved && d.waitIFrame
    case _ => d == c
  }

  /** Every call of a consumer gives up its own holes and nobody else's, and moves nobody
      else. */
  lemma ConsumerStands(r: Ring, op: Op)
    requires Sound(r) && CallOk(r, Table(op)) && ByConsumer(op)
    ensures var t := After(r, Table(op));
            && t == r.(shared := t.shared) && |t.shared.users| == |r.shared.users|
            && StandsAfter(r, r.shared.users[op.user], op, t.shared.users[op.user])
            && (forall i :: 0 <= i < |r.shared.users| && i != op.user ==> t.shared.users[i] == r.shared.users[i])
            && forall h :: h in t.shared.table <==> h in r.shared.table && h.owner != r.shared.users[op.user].name
  {
    DeleteExactly(r.shared.table, r.shared.users[op.user].name);
    hide DeleteOwned, TableOk;
  }

  /** A reset puts every consumer at the start, to wait for an I frame, and marks those that
      were given something as moved. */
  predicate StandsAtStart(c: Consumer, d: Consumer) {
    if !Installed(c) then d == c
    else
      && d.name == c.name && d.index == d.offset == d.refStart == d.refEnd == 0 && d.waitIFrame
      && (if c.state.Free? then d.state.Free? && d.moved == c.moved else d.state.Blocked? && d.moved)
  }

  lemma ResetUserStands(n: nat, frames: seq<Frame>, s: Shared, i: nat)
    requires FramesOk(n, frames) && UsersOk(n, frames, s.users) && i < |s.users|
    ensures var t := ResetUser(n, frames, s, i);
            && UsersOk(n, frames, t.users) && |t.users| == |s.users| && StandsAtStart(s.users[i], t.users[i])
            && forall j :: 0 <= j < |s.users| && j != i ==> t.users[j] == s.users[j]
  {
    hide Insert;
  }

  lemma {:induction false} ResetFromStands(n: nat, frames: seq<Frame>, s: Shared, i: nat, j: nat)
    requires FramesOk(n, frames) && UsersOk(n, frames, s.users) && i <= |s.users| && j < |s.users|
    ensures |ResetFrom(n, frames, s, i).users| == |s.users|
    ensures var d := ResetFrom(n, frames, s, i).users[j]; if i <= j then StandsAtStart(s.users[j], d) else d == s.users[j]
    decreases |s.users| - i
  {
    hide StandsAtStart;
    if i < |s.users| {
      ResetUserStands(n, frames, s, i);
      hide ResetUser;
      ResetFromStands(n, frames, ResetUser(n, frames, s, i), i + 1, j);
    }
  }

  lemma ResetStands(r: Ring, j: nat)
    requires Sound(r) && j < |r.shared.users|
    ensures var t := After(r, Table(ResetAll));
            && t.index == t.offset == t.last == 0 && !t.written && t.frames == r.frames
            && |t.shared.users| == |r.shared.users| && StandsAtStart(r.shared.users[j], t.shared.users[j])
  {
    hide ResetFrom, TableOk, StandsAtStart;
    ResetFromStands(r.n, r.frames, r.shared, 0, j);
  }

  // ------------------------------------------------- what an overtaken consumer keeps

  /** The bytes from the first frame held to the end of the last. */
  function HeldSize(r: Ring, c: Consumer): nat
    requires Fit(r) && c.refStart < |r.frames| && c.refEnd < |r.frames|
  {
    Fwd(r.n, r.frames[c.refStart].offset, r.frames[c.refEnd].offset) + r.frames[c.refEnd].length
  }

  /** h covers exactly the size bytes from a on. */
  ghost predicate CoversJust(n: nat, h: Span, a: nat, size: nat)
    requires a < n
  {
    OnRing(n, h) && forall x: nat :: x < n ==> (Covers(n, h, x) <==> Fwd(n, a, x) < size)
  }

  lemma HeldIs(n: nat, frames: seq<Frame>, c: Consumer)
    requires FramesOk(n, frames) && c.refStart < |frames| && c.refEnd < |frames|
    requires Fwd(n, frames[c.refStart].offset, frames[c.refEnd].offset) + frames[c.refEnd].length < n
    ensures CoversJust(n, HeldSpan(n, frames, c), frames[c.refStart].offset,
                       Fwd(n, frames[c.refStart].offset, frames[c.refEnd].offset) + frames[c.refEnd].length)
  {
    var a, b := frames[c.refStart].offset, frames[c.refEnd];
    AdvAfter(n, a, b.offset, b.length);
    AdvSmall(n, a, Fwd(n, a, b.offset) + b.length);
    hide Adv;
  }

  /** A consumer that holds frames when it is moved gets a hole around exactly their bytes; all
      other holes stay.  One that holds none gets none. */
  lemma OvertakenKeeps(r: Ring, user: nat, index: nat, wait: bool)
    requires Sound(r) && CallOk(r, Table(MoveBlocker(user, index, wait)))
    ensures var c, t := r.shared.users[user], After(r, Table(MoveBlocker(user, index, wait))).shared.table;
            && (!c.state.Holding? ==> t == r.shared.table)
            && (c.state.Holding? && HeldSize(r, c) < r.n ==>
                  exists h :: h in t && h.owner == c.name && CoversJust(r.n, h.span, r.frames[c.refStart].offset, HeldSize(r, c))
                              && forall g :: g in t <==> g in r.shared.table || g == h)
  {
    var c := r.shared.users[user];
    if c.state.Holding? {
      var h := Hole(HeldSpan(r.n, r.frames, c), c.name);
      OnlyBlockedOwn(r.n, r.shared, user);
      InsertKeeps(r.shared.table, h);
      if HeldSize(r, c) < r.n {
        HeldIs(r.n, r.frames, c);
      }
      hide TableOk, CoversJust, HeldSpan, Insert;
    }
  }
}
