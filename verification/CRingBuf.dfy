/** The ring buffer object itself: the shared header with its consumer slots, frame
    index and table of black holes, all updated in place.  Every method is proved to do
    what the functions of RingAlloc, RingTable and RingRuns say. */
module RingBuffer {
  import opened RingGeometry
  import opened RingJump
  import opened RingAlloc
  import opened RingTable
  import RingRuns
  import RingIndex

  const MAX_FRAMES: nat := 896
  /** How often RequestWriteFrame tries. */
  const MAX_RETRY: nat := 100

  class CRingBuf {
    /** The size of the ring in bytes. */
    const n: nat
    const consumers: array<Consumer>
    const holes: array<Hole>
    const frameIdx: array<Frame>
    /** The type of the frame in each slot of the index, and of the one requested last. */
    const frameTypes: array<nat>
    var lastFrameType: nat
    const liveStream: bool
    /** What the last read of the consumer in each slot returned. */
    const lastReadBytes: array<nat>
    var holeNum: nat
    /** The write offset and the next free frame index. */
    var offset: nat
    var index: nat
    var jumpOverHole: bool
    var dataWritten: bool
    var lastWriteBytes: nat
    var lastAlignmentBytes: nat

    ghost function Users(): seq<Consumer>
      reads consumers
    {
      consumers[..]
    }

    ghost function Table(): seq<Hole>
      requires holeNum <= holes.Length
      reads this`holeNum, holes
    {
      holes[..holeNum]
    }

    ghost function Frames(): seq<Frame>
      reads frameIdx
    {
      frameIdx[..]
    }

    ghost function Types(): seq<nat>
      reads frameTypes
    {
      frameTypes[..]
    }

    ghost function State(): Shared
      requires holeNum <= holes.Length
      reads this`holeNum, consumers, holes
    {
      Shared(Users(), Table())
    }

    /** The ring as the runs of RingRuns see it. */
    ghost function Now(): RingRuns.Ring
      requires holeNum <= holes.Length
      reads this`holeNum, this`offset, this`index, this`dataWritten, this`lastWriteBytes, this`lastAlignmentBytes
      reads consumers, holes, frameIdx
    {
      RingRuns.Ring(n, State(), Frames(), offset, index, dataWritten, lastWriteBytes, lastAlignmentBytes)
    }

    /** What this class does to the ring is the call of RingRuns, whenever that may be made. */
    ghost predicate Does(r: RingRuns.Ring, call: RingRuns.Call)
      requires holeNum <= holes.Length
      reads this`holeNum, this`offset, this`index, this`dataWritten, this`lastWriteBytes, this`lastAlignmentBytes
      reads consumers, holes, frameIdx
    {
      IsAfter(r, call, Now())
    }

    lemma OffsetOnRing(user: nat)
      requires Sizes() && UsersOk(n, Frames(), Users()) && user < MAX_CONSUMERS
      ensures consumers[user].offset < n && consumers[user].index < MAX_FRAMES
    {
      assert Users()[user] == consumers[user];
    }

    lemma ValidFits()
      requires Valid()
      ensures RingRuns.Fit(Now()) && RingRuns.Sound(Now()) && |Types()| == |Now().frames|
    {
      TableFeedsAllocator(n, State());
    }

    ghost predicate Sizes()
      reads this`holeNum, this`offset, this`index
    {
      && 0 < n <= 0x7fff_f000 && offset < n && index < MAX_FRAMES
      && consumers.Length == lastReadBytes.Length == holes.Length == MAX_CONSUMERS
      && frameIdx.Length == frameTypes.Length == MAX_FRAMES && frameTypes != lastReadBytes && holeNum <= MAX_CONSUMERS
    }

    /** What every call keeps. */
    ghost predicate Valid()
      reads this`holeNum, this`offset, this`index, consumers, holes, frameIdx
    {
      Sizes() && FramesOk(n, Frames()) && UsersOk(n, Frames(), Users()) && TableOk(n, State())
    }

    /** A ring of n bytes with its consumers installed and nothing written. */
    constructor (n: nat, users: seq<Consumer>, liveStream: bool)
      requires 0 < n <= 0x7fff_f000 && |users| == MAX_CONSUMERS && NamesDiffer(users)
      requires forall i :: 0 <= i < |users| ==>
                 users[i].index < MAX_FRAMES && users[i].refStart < MAX_FRAMES && users[i].refEnd < MAX_FRAMES && users[i].offset < n
      ensures Valid() && Users() == users && Table() == [] && this.n == n
      ensures fresh(consumers) && fresh(holes) && fresh(frameIdx) && fresh(frameTypes) && fresh(lastReadBytes)
    {
      this.n, this.liveStream := n, liveStream;
      consumers := new Consumer[MAX_CONSUMERS](i requires 0 <= i < |users| => users[i]);
      holes := new Hole[MAX_CONSUMERS](i => Hole(Span(0, 0), ""));
      frameIdx := new Frame[MAX_FRAMES](i => Frame(0, 0));
      frameTypes, lastFrameType := new nat[MAX_FRAMES](i => RingIndex.I_SLICE), RingIndex.I_SLICE;
      lastReadBytes := new nat[MAX_CONSUMERS](i => 0);
      holeNum, offset, index, jumpOverHole, dataWritten, lastWriteBytes, lastAlignmentBytes := 0, 0, 0, false, false, 0, 0;
      new;
      assert Users() == users;
    }

    // ------------------------------------------------------------------ the table

    /** DeleteBlackHoleByIdx: the holes behind it move down. */
    method DeleteByIdx(at: nat)
      requires Sizes() && at < holeNum
      modifies this`holeNum, holes
      ensures Sizes() && Table() == old(Table())[..at] + old(Table())[at + 1..]
    {
      ghost var table := Table();
      var i := at;
      while i < holeNum - 1
        invariant at <= i < holeNum == |table| && Sizes()
        invariant forall k :: 0 <= k < holeNum ==> holes[k] == table[if at <= k < i then k + 1 else k]
      {
        holes[i] := holes[i + 1];
        i := i + 1;
      }
      holeNum := holeNum - 1;
      CutOut(table, at, Table());
    }

    /** DeleteBlackHoleOwnedBy */
    method DeleteOwnedBy(name: string)
      requires Sizes()
      modifies this`holeNum, holes
      ensures Sizes() && Table() == DeleteOwned(old(Table()), name)
    {
      hide DeleteOwned;
      ghost var table := Table();
      var i := holeNum;
      DeleteWhole(table, name);
      while i > 0
        invariant 0 <= i <= holeNum && Sizes() && i <= |table|
        invariant Table()[..i] == table[..i]
        invariant DeleteOwned(table, name) == DeleteOwned(table[..i], name) + Table()[i..]
      {
        i := i - 1;
        DeleteStep(table, name, i, Table());
        if holes[i].owner == name {
          DeleteByIdx(i);
        }
      }
    }

    /** The upper part of the table moves up and leaves place at for a new hole. */
    method PutAt(at: nat, h: Hole)
      requires Sizes() && at <= holeNum < MAX_CONSUMERS
      modifies this`holeNum, holes
      ensures Sizes() && Table() == old(Table())[..at] + [h] + old(Table())[at..]
    {
      ghost var table := Table();
      var i := holeNum;
      while i > at
        invariant at <= i <= holeNum == |table| && Sizes()
        invariant forall k :: 0 <= k <= holeNum && k != i ==> holes[k] == table[if k > i then k - 1 else k]
      {
        holes[i] := holes[i - 1];
        i := i - 1;
      }
      holes[at] := h;
      holeNum := holeNum + 1;
      PutIn(table, at, h, Table());
    }

    /** InsertBlackHole; the requires is its assertion. */
    method InsertBlackHole(name: string, span: Span) returns (present: bool)
      requires Sizes() && holeNum < MAX_CONSUMERS
      modifies this`holeNum, holes
      ensures Sizes()
      ensures match Insert(old(Table()), Hole(span, name))
              case Exists => present && Table() == old(Table())
              case Done(table) => !present && Table() == table
    {
      ghost var table, h := Table(), Hole(span, name);
      var i := 0;
      InsertStart(table, h);
      hide Insert, Behind;
      while i < holeNum
        invariant i <= holeNum && Sizes() && Table() == table
        invariant Insert(table, h) == Behind(table[..i], Insert(table[i..], h))
      {
        InsertStep(table, i, h);
        if Precedes(span, holes[i].span) {
          break;
        }
        if holes[i].owner == name {
          return true;
        }
        i := i + 1;
      }
      InsertHere(table, i, h);
      PutAt(i, Hole(span, name));
      present := false;
    }

    // ---------------------------------------------------------------- the consumers

    /** MoveConsumer */
    method MoveConsumer(i: nat, newIndex: nat, newOffset: nat, wait: bool)
      requires i < consumers.Length
      modifies consumers
      ensures Users() == old(Users())[i := Moved(old(Users())[i], newIndex, newOffset, wait)]
    {
      consumers[i] := consumers[i].(index := newIndex, offset := newOffset, waitIFrame := wait);
      consumers[i] := consumers[i].(refStart := newIndex, refEnd := newIndex);
    }

    /** The black hole around the frames consumer i holds. */
    method IsolateHolder(i: nat)
      requires Valid() && i < MAX_CONSUMERS && Installed(consumers[i]) && consumers[i].state.Holding?
      modifies this`holeNum, holes
      ensures Sizes() && State() == Isolate(n, Frames(), old(State()), i)
    {
      var c := consumers[i];
      var first, last := frameIdx[c.refStart], frameIdx[c.refEnd];
      HoleGoesIn(n, State(), i, HeldSpan(n, Frames(), c));
      var present := InsertBlackHole(c.name, Span(first.offset, Adv(n, last.offset, last.length)));
    }

    /** One turn of the loop of MoveAllBlockers. */
    method OvertakeConsumer(i: nat, newIndex: nat, wait: bool)
      requires Valid() && i < MAX_CONSUMERS && Installed(consumers[i]) && newIndex < MAX_FRAMES
      modifies this`holeNum, holes, consumers
      ensures Valid() && State() == Overtake(n, Frames(), old(State()), i, newIndex, wait)
      ensures Does(old(Now()), RingRuns.Table(MoveBlocker(i, newIndex, wait)))
    {
      hide TableOk, UsersOk, IsAfter, RingRuns.Fit, DeleteOwned;
      ghost var r := Now();
      ValidFits();
      StepKeeps(n, Frames(), State(), MoveBlocker(i, newIndex, wait));
      var readOffset := frameIdx[newIndex].offset;
      if consumers[i].state.Free? {
        MoveConsumer(i, newIndex, readOffset, wait);
      } else if consumers[i].state.Blocked? {
        MoveConsumer(i, newIndex, readOffset, wait);
        consumers[i] := consumers[i].(moved := true);
        assert consumers[i] == consumers[i].(state := Blocked);
      } else {
        IsolateHolder(i);
        MoveConsumer(i, newIndex, readOffset, wait);
        consumers[i] := consumers[i].(moved := true, state := Blocked);
      }
      assert Frames() == old(Frames());
      assert Users() == Overtake(n, Frames(), old(State()), i, newIndex, wait).users;
      TableCall(r, MoveBlocker(i, newIndex, wait), Now());
    }

    /** IndexFindNextFrame */
    method FindNextFrame(readIndex: nat, frameType: nat) returns (found: bool, at: nat)
      requires Sizes() && readIndex < MAX_FRAMES
      ensures RingIndex.NextFrame(Types(), readIndex, index, frameType) == (if found then RingIndex.At(at) else RingIndex.NoFrame)
      ensures at < MAX_FRAMES
    {
      at := readIndex;
      while at != index
        invariant at < MAX_FRAMES
        invariant RingIndex.NextFrame(Types(), readIndex, index, frameType) == RingIndex.NextFrame(Types(), at, index, frameType)
        decreases Fwd(MAX_FRAMES, at, index)
      {
        if frameType == RingIndex.ANY || frameTypes[at] == frameType {
          return true, at;
        }
        at := RingIndex.Next(MAX_FRAMES, at);
      }
      found := false;
    }

    /** IndexFindBlocker */
    method FindIndexBlockers() returns (blockers: seq<nat>)
      requires Sizes()
      ensures blockers == RingIndex.IndexBlockers(Users(), MAX_FRAMES, index)
    {
      blockers := [];
      for i := 0 to MAX_CONSUMERS
        invariant blockers == RingIndex.IndexBlockers(Users()[..i], MAX_FRAMES, index)
      {
        assert Users()[..i + 1][..i] == Users()[..i];
        if Installed(consumers[i]) && consumers[i].index == (index + 1) % MAX_FRAMES {
          blockers := blockers + [i];
        }
      }
      assert Users()[..MAX_CONSUMERS] == Users();
    }

    /** The frame a blocker is moved to, and whether it is an I frame. */
    method FindTarget(i: nat) returns (target: nat, iFrame: bool)
      requires Sizes() && i < MAX_CONSUMERS && consumers[i].index < MAX_FRAMES
      ensures target < MAX_FRAMES && RingIndex.Destination(target, iFrame) == RingIndex.Target(Types(), consumers[i].index, index)
    {
      iFrame, target := FindNextFrame(RingIndex.Next(MAX_FRAMES, consumers[i].index), RingIndex.I_SLICE);
      if !iFrame || target == consumers[i].index {
        iFrame, target := false, (index + MAX_FRAMES - 1) % MAX_FRAMES;
      }
    }

    /** One turn of the loop of MoveAllBlockers, after those for front. */
    method MoveOne(i: nat, iFrameFound: bool, ghost r: RingRuns.Ring, ghost front: seq<nat>) returns (found: bool)
      requires Valid() && i < MAX_CONSUMERS && Installed(consumers[i])
      requires RingRuns.Sound(r) && |Types()| == |r.frames| && AfterMoves(r, front, iFrameFound)
      modifies this`holeNum, holes, consumers
      ensures Valid() && AfterMoves(r, front + [i], found) && SameNames(old(Users()), Users())
    {
      hide TableOk, UsersOk, FramesOk, Overtake, IsAfter, RingIndex.Target, RingIndex.Moves, RingRuns.RunCalls, RingRuns.Fit, RingRuns.Sound;
      OffsetOnRing(i);
      ghost var t := Now();
      var target, iFrame := FindTarget(i);
      found := iFrameFound || iFrame;
      OvertakeNames(n, Frames(), State(), i, target, !found);
      OvertakeConsumer(i, target, !found);
      MoveDone(r, Types(), front, i, t, iFrameFound, target, iFrame, Now());
    }

    /** The ring is as after the moves of those blockers; seen: one was to an I frame. */
    ghost predicate AfterMoves(r: RingRuns.Ring, blockers: seq<nat>, seen: bool)
      requires RingRuns.Sound(r) && |Types()| == |r.frames| && holeNum <= holes.Length
      reads this`holeNum, this`offset, this`index, this`dataWritten, this`lastWriteBytes, this`lastAlignmentBytes
      reads consumers, holes, frameIdx, frameTypes
    {
      var m := RingIndex.Moves(r, Types(), blockers);
      Now() == RingRuns.RunCalls(r, m.calls) && seen == m.seen
    }

    /** MoveAllBlockers */
    method MoveAllBlockers(blockers: seq<nat>)
      requires Valid() && forall k :: 0 <= k < |blockers| ==> blockers[k] < MAX_CONSUMERS && Installed(consumers[blockers[k]])
      modifies this`holeNum, holes, consumers
      ensures Valid() && RingRuns.Sound(old(Now())) && |Types()| == |old(Now()).frames|
      ensures Now() == RingRuns.RunCalls(old(Now()), RingIndex.Moves(old(Now()), Types(), blockers).calls)
      ensures SameNames(old(Users()), Users())
    {
      hide TableOk, FramesOk, RingRuns.RunCalls, RingIndex.Moves;
      ValidFits();
      ghost var r := Now();
      MovesNothing(r, Types());
      var iFrameFound := false;
      assert blockers[..0] == [];
      for k := 0 to |blockers|
        invariant Valid() && SameNames(r.shared.users, Users())
        invariant AfterMoves(r, blockers[..k], iFrameFound)
      {
        assert blockers[..k + 1] == blockers[..k] + [blockers[k]] && Users()[blockers[k]].name == r.shared.users[blockers[k]].name;
        iFrameFound := MoveOne(blockers[k], iFrameFound, r, blockers[..k]);
      }
      assert blockers[..|blockers|] == blockers;
    }

    /** One turn of the loop of ResetAllUser. */
    method ResetConsumer(i: nat)
      requires Valid() && i < MAX_CONSUMERS
      modifies this`holeNum, holes, consumers
      ensures Valid() && State() == ResetUser(n, Frames(), old(State()), i)
    {
      ResetUserKeeps(n, Frames(), State(), i);
      hide TableOk, UsersOk;
      if Installed(consumers[i]) {
        if consumers[i].state.Holding? {
          IsolateHolder(i);
          consumers[i] := consumers[i].(moved := true);
          consumers[i] := consumers[i].(state := Blocked);
        } else if consumers[i].state.Blocked? {
          consumers[i] := consumers[i].(moved := true);
          assert consumers[i] == consumers[i].(state := Blocked);
        }
        MoveConsumer(i, 0, 0, true);
        assert Users() == ResetUser(n, old(Frames()), old(State()), i).users;
      }
      assert Frames() == old(Frames());
    }

    /** ResetAllUser, by the producer. */
    method ResetAllUser()
      requires Valid()
      modifies this`holeNum, this`offset, this`index, this`dataWritten, this`lastWriteBytes, holes, consumers
      ensures Valid() && State() == Step(n, Frames(), old(State()), ResetAll)
      ensures offset == index == lastWriteBytes == 0 && !dataWritten
      ensures Does(old(Now()), RingRuns.Table(ResetAll))
    {
      for i := 0 to MAX_CONSUMERS
        invariant Valid() && ResetFrom(n, Frames(), State(), i) == ResetFrom(n, Frames(), old(State()), 0)
      {
        ResetConsumer(i);
      }
      offset, index, dataWritten, lastWriteBytes := 0, 0, false, 0;
    }

    // ------------------------------------------------------------- consumer calls

    /** RequestReadFrame, and with last beyond first RequestReadContinuousFrames: found
        says whether the search of the frame index came up with something to read, and
        bytes how long it is. */
    method RequestRead(user: nat, found: bool, first: nat, last: nat, bytes: nat)
      requires Valid() && user < MAX_CONSUMERS && Installed(consumers[user]) && first < MAX_FRAMES && last < MAX_FRAMES
      modifies this`holeNum, holes, consumers, lastReadBytes
      ensures Valid()
      ensures State() == Step(n, Frames(), old(State()), if found then Op.RequestRead(user, first, last) else RequestNothing(user))
      ensures lastReadBytes[..] == if found then old(lastReadBytes[..])[user := bytes] else old(lastReadBytes[..])
      ensures Does(old(Now()), RingRuns.Table(if found then Op.RequestRead(user, first, last) else RequestNothing(user)))
    {
      hide TableOk, UsersOk, IsAfter, RingRuns.Fit, DeleteOwned;
      ghost var r := Now();
      ValidFits();
      StepKeeps(n, Frames(), State(), if found then Op.RequestRead(user, first, last) else RequestNothing(user));
      DeleteOwnedBy(consumers[user].name);
      if found {
        lastReadBytes[user] := bytes;
        MoveConsumer(user, first, frameIdx[first].offset, false);
        consumers[user] := consumers[user].(refStart := first, refEnd := last);
        consumers[user] := consumers[user].(state := Holding, moved := false);
        assert Users() == Step(n, old(Frames()), old(State()), Op.RequestRead(user, first, last)).users;
      }
      assert Frames() == old(Frames());
      TableCall(r, if found then Op.RequestRead(user, first, last) else RequestNothing(user), Now());
    }

    /** RequestReadFrame: the frame found and its length, or nothing.  A consumer that waits for
        an I frame is given nothing else in a live stream. */
    method RequestReadFrame(user: nat, frameType: nat) returns (ok: bool, at: nat, length: nat)
      requires Valid() && user < MAX_CONSUMERS && Installed(consumers[user])
      modifies this`holeNum, holes, consumers, lastReadBytes
      ensures Valid() && RingRuns.Fit(old(Now())) && Types() == old(Types()) && |Types()| == |old(Now()).frames|
      ensures var wanted := if liveStream && old(consumers[user].waitIFrame) then RingIndex.I_SLICE else frameType;
              var op := RingIndex.ReadOp(old(Now()), Types(), user, wanted);
              && ok == op.RequestRead? && (ok ==> op == Op.RequestRead(user, at, at) && at < MAX_FRAMES && length == frameIdx[at].length)
              && State() == Step(n, Frames(), old(State()), op) && Does(old(Now()), RingRuns.Table(op))
              && lastReadBytes[..] == if ok then old(lastReadBytes[..])[user := length] else old(lastReadBytes[..])
    {
      ValidFits();
      OffsetOnRing(user);
      ghost var r := Now();
      hide TableOk, UsersOk, FramesOk, Step;
      var wanted := if liveStream && consumers[user].waitIFrame then RingIndex.I_SLICE else frameType;
      ok, at := FindNextFrame(consumers[user].index, wanted);
      var frame := frameIdx[at];
      length := frame.length;
      if ok {
        assert Frames()[at] == frame;
        ok := 0 < length && frame.offset < n && Fwd(n, frame.offset, offset) >= length;
      }
      RequestRead(user, ok, at, at, length);
    }

    /** CommitRead; false is CRB_ERROR_PERM. */
    method CommitRead(user: nat, bytes: nat) returns (ok: bool)
      requires Valid() && user < MAX_CONSUMERS && Installed(consumers[user])
      modifies this`holeNum, holes, consumers, lastReadBytes
      ensures Valid() && ok == (old(lastReadBytes[user]) != 0)
      ensures State() == Step(n, Frames(), old(State()), if ok then Op.CommitRead(user, bytes) else CommitNothing(user))
      ensures ok ==> lastReadBytes[..] == old(lastReadBytes[..])[user := 0]
      ensures Does(old(Now()), RingRuns.Table(if ok then Op.CommitRead(user, bytes) else CommitNothing(user)))
    {
      hide TableOk, UsersOk, IsAfter, RingRuns.Fit, DeleteOwned;
      ghost var r := Now();
      ValidFits();
      StepKeeps(n, Frames(), State(), if lastReadBytes[user] != 0 then Op.CommitRead(user, bytes) else CommitNothing(user));
      DeleteOwnedBy(consumers[user].name);
      if lastReadBytes[user] == 0 {
        TableCall(r, CommitNothing(user), Now());
        return false;
      }
      OffsetOnRing(user);
      if !consumers[user].moved {
        MoveConsumer(user, (consumers[user].refEnd + 1) % MAX_FRAMES, Adv(n, consumers[user].offset, bytes), false);
      }
      lastReadBytes[user] := 0;
      consumers[user] := consumers[user].(state := Free);
      consumers[user] := consumers[user].(moved := false);
      ok := true;
      assert Frames() == old(Frames());
      assert Users() == Step(n, Frames(), old(State()), Op.CommitRead(user, bytes)).users;
      TableCall(r, Op.CommitRead(user, bytes), Now());
    }

    /** DiscardAllData */
    method DiscardAllData(user: nat)
      requires Valid() && user < MAX_CONSUMERS && Installed(consumers[user])
      modifies this`holeNum, holes, consumers, lastReadBytes
      ensures Valid() && State() == Step(n, Frames(), old(State()), Discard(user, index, offset))
      ensures lastReadBytes[..] == old(lastReadBytes[..])[user := 0]
      ensures Does(old(Now()), RingRuns.Table(Discard(user, index, offset)))
    {
      hide TableOk, UsersOk, IsAfter, RingRuns.Fit, DeleteOwned;
      ghost var r := Now();
      ValidFits();
      StepKeeps(n, Frames(), State(), Discard(user, index, offset));
      DeleteOwnedBy(consumers[user].name);
      MoveConsumer(user, index, offset, true);
      consumers[user] := consumers[user].(state := Free);
      consumers[user] := consumers[user].(moved := false);
      lastReadBytes[user] := 0;
      assert Frames() == old(Frames());
      assert Users() == Step(n, Frames(), old(State()), Discard(user, index, offset)).users;
      TableCall(r, Discard(user, index, offset), Now());
    }

    // ------------------------------------------------------------------- the producer

    /** What a request relies on; Valid implies it. */
    ghost predicate Ready()
      reads this`holeNum, this`offset, this`index, consumers, holes
    {
      Sizes() && ReadersOnRing(n, Users()) && AllOnRing(n, Spans(Table())) && SortedByStart(Spans(Table()))
    }

    /** One turn of the merge loop. */
    method MergeHole(acc: seq<Span>, h: Span) returns (sorted: seq<Span>)
      requires AllOnRing(n, acc) && OnRing(n, h)
      ensures sorted == Push(n, acc, h)
    {
      if acc == [] {
        return [h];
      }
      var last := acc[|acc| - 1];
      var lastLength := Fwd(n, last.start, last.end);
      var distance := Fwd(n, last.start, h.start);
      if distance <= lastLength {
        var newLength := Fwd(n, last.start, h.end);
        if newLength >= lastLength {
          last := last.(end := Adv(n, last.start, newLength));
        }
        sorted := acc[..|acc| - 1] + [last];
      } else {
        sorted := acc + [h];
      }
    }

    /** The merge loop over the holes in slots [from, to), after those in done. */
    method MergeRange(acc: seq<Span>, from: nat, to: nat, ghost done: seq<Span>) returns (sorted: seq<Span>)
      requires Ready() && from <= to <= holeNum && AllOnRing(n, done) && acc == Merge(n, done)
      ensures AllOnRing(n, done + Spans(Table())[from..to])
      ensures sorted == Merge(n, done + Spans(Table())[from..to])
    {
      hide Push, Merge, SortedByStart, AllOnRing, OnRing, ReadersOnRing;
      ghost var hs := Spans(Table());
      assert Sizes() && SortedByStart(hs) && AllOnRing(n, hs);
      assert done + hs[from..from] == done;
      hide Ready;
      sorted := acc;
      for i := from to to
        invariant AllOnRing(n, done + hs[from..i]) && sorted == Merge(n, done + hs[from..i])
      {
        var h := holes[i].span;
        assert h == hs[i];
        MergeNext(n, done, hs, from, i);
        if done == [] && sorted != [] {
          assert sorted[|sorted| - 1].start <= h.start;
        }
        sorted := MergeHole(sorted, h);
      }
    }

    /** The first hole that starts at or after w. */
    method FindNearest(w: nat) returns (nearest: nat)
      requires Sizes()
      ensures nearest == Nearest(w, Spans(Table()))
    {
      ghost var hs := Spans(Table());
      nearest := 0;
      assert hs[0..] == hs;
      while nearest < holeNum && holes[nearest].span.start < w
        invariant nearest <= holeNum && Nearest(w, hs) == nearest + Nearest(w, hs[nearest..])
      {
        assert hs[nearest..][1..] == hs[nearest + 1..];
        nearest := nearest + 1;
      }
    }

    /** BlackHoleSortMerge: the holes from the write offset on, then the others. */
    method BlackHoleSortMerge(w: nat) returns (sorted: seq<Span>)
      requires Ready() && w < n
      ensures sorted == SortMerge(n, w, Spans(Table()))
    {
      hide Nearest, Rotate, SortedByStart;
      ghost var hs := Spans(Table());
      assert Sizes() && AllOnRing(n, hs) && Merge(n, []) == [];
      RotateSplit(w, hs);
      hide Ready, Merge;
      var nearest := FindNearest(w);
      if nearest == 0 || nearest == holeNum {
        sorted := MergeRange([], 0, holeNum, []);
      } else {
        sorted := MergeRange([], nearest, holeNum, []);
        sorted := MergeRange(sorted, 0, nearest, [] + hs[nearest..holeNum]);
      }
    }

    /** BlackholeJump */
    method BlackholeJump(w: nat, writeLength: nat, alignment: nat) returns (jump: nat)
      requires Ready() && w < n
      ensures jump == Jump(n, w, SortMerge(n, w, Spans(Table())), writeLength + alignment)
    {
      hide SortMerge, Adv;
      var sorted := BlackHoleSortMerge(w);
      jump := w;
      var i := 0;
      assert sorted[0..] == sorted;
      while i < |sorted|
        invariant i <= |sorted| && jump < n
        invariant Jump(n, w, sorted, writeLength + alignment) == Jump(n, jump, sorted[i..], writeLength + alignment)
      {
        var h := sorted[i];
        var writeEnd := Adv(n, jump, writeLength + alignment);
        assert sorted[i..][1..] == sorted[i + 1..];
        if jump < writeEnd {
          if h.start < h.end {
            if (jump > h.end && writeEnd > h.end) || (jump < h.start && writeEnd <= h.start) {
              break;
            }
          } else if jump < h.start && jump > h.end && writeEnd <= h.start && writeEnd > h.end {
            break;
          }
        } else if h.end > h.start && jump > h.end && writeEnd <= h.start {
          break;
        }
        jump := h.end;
        i := i + 1;
      }
    }

    /** The first loop of __RequestWritePtr: the smallest writable size, who leaves at most
        size bytes, who leaves at most size + alignment, and whether nobody is installed. */
    method Survey(size: nat, alignment: nat) returns (min: nat, blockers: seq<nat>, alignBlockers: seq<nat>, nobody: bool)
      requires Ready()
      ensures min == MinWritable(n, offset, Users())
      ensures blockers == RingAlloc.Short(n, offset, Users(), size) && nobody == NobodyInstalled(Users())
      ensures alignment > 0 ==> alignBlockers == RingAlloc.Short(n, offset, Users(), size + alignment)
    {
      min, blockers, alignBlockers, nobody := n, [], [], true;
      for i := 0 to MAX_CONSUMERS
        invariant min == MinWritable(n, offset, Users()[..i])
        invariant blockers == RingAlloc.Short(n, offset, Users()[..i], size) && nobody == NobodyInstalled(Users()[..i])
        invariant alignment > 0 ==> alignBlockers == RingAlloc.Short(n, offset, Users()[..i], size + alignment)
      {
        assert Users()[..i + 1][..i] == Users()[..i];
        if Installed(consumers[i]) {
          nobody := false;
          var writable := Writable(n, offset, consumers[i].offset);
          if min > writable {
            min := writable;
          }
          if writable <= size {
            blockers := blockers + [i];
          }
          if alignment > 0 && writable <= size + alignment {
            alignBlockers := alignBlockers + [i];
          }
        }
      }
      assert Users()[..MAX_CONSUMERS] == Users();
    }

    /** The second loop: who leaves no more than need bytes. */
    method WhoBlocks(need: nat) returns (blockers: seq<nat>)
      requires Ready()
      ensures blockers == RingAlloc.Short(n, offset, Users(), need)
    {
      blockers := [];
      for i := 0 to MAX_CONSUMERS
        invariant blockers == RingAlloc.Short(n, offset, Users()[..i], need)
      {
        assert Users()[..i + 1][..i] == Users()[..i];
        if Installed(consumers[i]) && Writable(n, offset, consumers[i].offset) <= need {
          blockers := blockers + [i];
        }
      }
      assert Users()[..MAX_CONSUMERS] == Users();
    }

    /** How many bytes the holes in the way cost. */
    method SkipHoles(size: nat, alignment: nat) returns (skipped: nat)
      requires Ready()
      ensures skipped == Skip(n, offset, Spans(Table()), size, alignment)
    {
      var jump := BlackholeJump(offset, size, alignment);
      skipped := Fwd(n, offset, jump);
    }

    /** The decision of __RequestWritePtr, for a size and an alignment it accepts; lonely:
        the caller may block and there is nobody to wait for. */
    method FindRoom(size: nat, alignment: nat, blocking: bool)
      returns (lonely: bool, refused: bool, skipped: nat, blockers: seq<nat>, alignBlockers: seq<nat>)
      requires Ready()
      ensures lonely == (blocking && dataWritten && NobodyInstalled(Users()))
      ensures !lonely ==> refused == (Needed(n, offset, Users(), Spans(Table()), size, alignment) >= MinWritable(n, offset, Users()))
      ensures !lonely && !refused ==> skipped == Skip(n, offset, Spans(Table()), size, alignment)
      ensures var need := if !lonely && refused then Needed(n, offset, Users(), Spans(Table()), size, alignment) else size;
              blockers == RingAlloc.Short(n, offset, Users(), need)
      ensures alignment > 0 ==> alignBlockers == RingAlloc.Short(n, offset, Users(), size + alignment)
    {
      var min, nobody;
      min, blockers, alignBlockers, nobody := Survey(size, alignment);
      hide NobodyInstalled, MinWritable, RingAlloc.Short, Skip;
      lonely, refused, skipped := blocking && nobody && dataWritten, size >= min, 0;
      if !lonely && !refused {
        skipped := SkipHoles(size, alignment);
        refused := skipped + alignment + size >= min;
        if refused {
          blockers := WhoBlocks(skipped + alignment + size);
        }
      }
    }

    /** __RequestWritePtr by the producer: at is where the granted bytes start. */
    method RequestWritePtr(size: nat, alignment: nat, blocking: bool) returns (out: Outcome, at: nat)
      requires Valid()
      modifies this`offset, this`jumpOverHole, this`lastWriteBytes, this`lastAlignmentBytes
      ensures Valid() && ReadersOnRing(n, Users()) && AllOnRing(n, Spans(Table()))
      ensures out == Request(n, old(offset), Users(), Spans(Table()), size, alignment, blocking, dataWritten)
      ensures match out
              case Granted(skip, pad) =>
                && offset == Adv(n, old(offset), skip) && at == Adv(n, offset, pad)
                && jumpOverHole == (old(jumpOverHole) || skip > 0)
                && lastWriteBytes == size && lastAlignmentBytes == pad
              case _ =>
                && offset == old(offset) && jumpOverHole == old(jumpOverHole)
                && lastWriteBytes == old(lastWriteBytes) && lastAlignmentBytes == old(lastAlignmentBytes)
      ensures Does(old(Now()), RingRuns.RequestWrite(size, alignment, blocking))
    {
      hide IsAfter, RingRuns.Fit, TableOk, FramesOk, RingAlloc.Place, MinWritable, RingAlloc.Short, NobodyInstalled, Adv, Skip;
      ghost var r := Now();
      ValidFits();
      TableFeedsAllocator(n, State());
      at := 0;
      if size == 0 || alignment > 4096 {
        out := Rejected;
        RequestCall(r, size, alignment, blocking, out, Now());
        return;
      }
      var lonely, refused, skipped, blockers, alignBlockers := FindRoom(size, alignment, blocking);
      hide Valid, AllOnRing, ReadersOnRing;
      if lonely || refused {
        out := Refused(blockers);
      } else {
        out, at := PlaceBytes(skipped, size, alignment, blockers, alignBlockers);
      }
      RequestCall(r, size, alignment, blocking, out, Now());
    }

    /** The end of __RequestWritePtr, once there is room. */
    method PlaceBytes(skipped: nat, size: nat, alignment: nat, blockers: seq<nat>, alignBlockers: seq<nat>)
      returns (out: Outcome, at: nat)
      requires Ready() && skipped < n
      requires blockers == RingAlloc.Short(n, offset, Users(), size)
      requires alignment > 0 ==> alignBlockers == RingAlloc.Short(n, offset, Users(), size + alignment)
      requires skipped + alignment + size < MinWritable(n, offset, Users())
      modifies this`offset, this`jumpOverHole, this`lastWriteBytes, this`lastAlignmentBytes
      ensures Sizes() && out == RingAlloc.Place(n, old(offset), Users(), skipped, size, alignment)
      ensures out.Granted? && out.skip == skipped
      ensures offset == Adv(n, old(offset), skipped) && at == Adv(n, offset, out.pad)
      ensures jumpOverHole == (old(jumpOverHole) || skipped > 0)
      ensures lastWriteBytes == size && lastAlignmentBytes == out.pad
    {
      hide MinWritable, RingAlloc.Short, ReadersOnRing, SortedByStart, Merge;
      RoomIsEnough(n, offset, Users(), skipped, size, alignment);
      NobodyShort(n, offset, Users(), size);
      NobodyShort(n, offset, Users(), size + alignment);
      AdvSmall(n, offset, skipped);
      hide Adv, Fwd, Aligned;
      if skipped > 0 {
        offset := Adv(n, offset, skipped);
        jumpOverHole := true;
      }
      at := offset;
      if alignment > 0 && alignBlockers == [] {
        AdvSmall(n, Aligned(n, at, alignment), 0);
        at := Adv(n, Aligned(n, at, alignment), 0);
        lastAlignmentBytes := Fwd(n, offset, at);
        Macros(n, offset, at);
      } else {
        lastAlignmentBytes := 0;
        AdvSmall(n, offset, 0);
      }
      lastWriteBytes := size;
      out := Granted(skipped, lastAlignmentBytes);
    }

    /** The consumers in the way of the next slot are moved. */
    method ClearTheWay(blockers: seq<nat>)
      requires Valid() && blockers == RingIndex.IndexBlockers(Users(), MAX_FRAMES, index)
      modifies this`holeNum, holes, consumers
      ensures Valid() && RingRuns.Sound(old(Now())) && |Types()| == |old(Now()).frames|
      ensures Now() == RingRuns.RunCalls(old(Now()), RingIndex.Cleared(old(Now()), Types()))
    {
      ValidFits();
      hide TableOk, UsersOk, FramesOk, RingRuns.RunCalls, RingIndex.Moves, RingRuns.Fit;
      RingIndex.BlockersFound(Users(), MAX_FRAMES, index);
      if |blockers| > 0 {
        MoveAllBlockers(blockers);
      } else {
        MovesNothing(Now(), Types());
      }
    }

    /** Then the bytes are requested. */
    method ClearAndRequest(blockers: seq<nat>, size: nat, alignment: nat) returns (out: Outcome, at: nat)
      requires Valid() && blockers == RingIndex.IndexBlockers(Users(), MAX_FRAMES, index) && RingIndex.Divides(alignment, n)
      modifies this`holeNum, this`offset, this`jumpOverHole, this`lastWriteBytes, this`lastAlignmentBytes, holes, consumers
      ensures Valid() && RingRuns.Sound(old(Now())) && |Types()| == |old(Now()).frames|
      ensures Now() == RingRuns.RunCalls(old(Now()), RingIndex.Attempt(old(Now()), Types(), size, alignment))
      ensures out == RingIndex.Answer(old(Now()), Types(), size, alignment)
      ensures out.Granted? ==> lastWriteBytes == size && at == Adv(n, offset, out.pad)
      ensures !out.Granted? ==> lastWriteBytes == old(lastWriteBytes)
      ensures out.Refused? ==> forall k :: 0 <= k < |out.blockers| ==> out.blockers[k] < MAX_CONSUMERS && Installed(consumers[out.blockers[k]])
    {
      hide TableOk, FramesOk, Request, RingRuns.RunCalls, RingIndex.Moves;
      ghost var r := Now();
      ClearTheWay(blockers);
      ghost var t := Now();
      ValidFits();
      out, at := RequestWritePtr(size, alignment, false);
      RequestDone(r, Types(), t, size, alignment, out, Now());
      NamedInstalled(t, size, alignment, out);
      assert consumers[..] == t.shared.users;
    }

    /** One turn of the loop of RequestWriteFrame. */
    method TryWriteFrame(size: nat, alignment: nat, frameType: nat, blocking: bool, ghost tries: nat) returns (out: Outcome, at: nat, done: bool)
      requires Valid() && 0 < size && alignment <= 4096 && RingIndex.Divides(alignment, n) && tries > 0
      modifies this`holeNum, this`offset, this`jumpOverHole, this`lastWriteBytes, this`lastAlignmentBytes, this`lastFrameType, holes, consumers
      ensures Valid() && RingRuns.Sound(old(Now())) && RingRuns.Sound(Now()) && |Types()| == |old(Now()).frames| == |Now().frames|
      ensures RingRuns.RunCalls(old(Now()), RingIndex.Attempts(old(Now()), Types(), size, alignment, blocking, tries))
           == if done then Now() else RingRuns.RunCalls(Now(), RingIndex.Attempts(Now(), Types(), size, alignment, blocking, tries - 1))
      ensures out.Granted? ==> done && lastWriteBytes == size && lastFrameType == frameType && at == Adv(n, offset, out.pad)
      ensures !out.Granted? ==> lastWriteBytes == old(lastWriteBytes) && lastFrameType == old(lastFrameType)
    {
      hide TableOk, UsersOk, FramesOk, RingRuns.RunCalls, RingRuns.Sound, RingRuns.Fit,
           RingIndex.Attempts, RingIndex.Attempt, RingIndex.Answer, RingIndex.Refusal, IsAfter;
      ValidFits();
      ghost var r := Now();
      var blockers := FindIndexBlockers();
      RingIndex.AttemptsUnfold(r, Types(), size, alignment, blocking, tries);
      if blocking && |blockers| > 0 {
        RingIndex.NothingRun(r, []);
        return Refused(blockers), 0, true;
      }
      out, at := ClearAndRequest(blockers, size, alignment);
      done := out.Granted? || blocking;
      if out.Granted? {
        lastFrameType := frameType;
      } else if !blocking {
        RingIndex.AttemptsTurn(r, Types(), size, alignment, blocking, tries);
        ghost var t := Now();
        MoveAllBlockers(RingIndex.NamedBy(out));
        RefusalDone(r, Types(), size, alignment, t, Now());
      }
      ValidFits();
    }

    /** RequestWriteFrame, without the ageing of holes and the choice of the alignment: the
        consumers in the way of the next slot are moved, the bytes are requested, the
        blockers named are moved, and so on; in blocking mode nobody is moved. */
    method RequestWriteFrame(size: nat, alignment: nat, frameType: nat, blocking: bool) returns (out: Outcome, at: nat)
      requires Valid() && 0 < size && alignment <= 4096 && RingIndex.Divides(alignment, n)
      modifies this`holeNum, this`offset, this`jumpOverHole, this`lastWriteBytes, this`lastAlignmentBytes, this`lastFrameType, holes, consumers
      ensures Valid() && RingRuns.Sound(old(Now())) && |Types()| == |old(Now()).frames|
      ensures Now() == RingRuns.RunCalls(old(Now()), RingIndex.Attempts(old(Now()), Types(), size, alignment, blocking, 100))
      ensures out.Granted? ==> lastWriteBytes == size && lastFrameType == frameType && at == Adv(n, offset, out.pad)
      ensures !out.Granted? ==> lastWriteBytes == old(lastWriteBytes) && lastFrameType == old(lastFrameType)
    {
      hide TableOk, UsersOk, FramesOk, RingRuns.RunCalls, RingRuns.Sound, RingRuns.Fit,
           RingIndex.Attempts, RingIndex.Attempt, RingIndex.Answer, RingIndex.Refusal;
      ValidFits();
      ghost var r := Now();
      ghost var all := RingRuns.RunCalls(r, RingIndex.Attempts(r, Types(), size, alignment, blocking, MAX_RETRY));
      var guard, done := 0, false;
      out, at := Refused([]), 0;
      while guard < MAX_RETRY && !done
        invariant Valid() && guard <= MAX_RETRY
        invariant !out.Granted? ==> lastWriteBytes == old(lastWriteBytes) && lastFrameType == old(lastFrameType)
        invariant RingRuns.Sound(Now()) && |Types()| == |Now().frames|
        invariant all == if done then Now()
                         else RingRuns.RunCalls(Now(), RingIndex.Attempts(Now(), Types(), size, alignment, blocking, MAX_RETRY - guard))
        invariant out.Granted? ==> done && lastWriteBytes == size && lastFrameType == frameType && at == Adv(n, offset, out.pad)
      {
        out, at, done := TryWriteFrame(size, alignment, frameType, blocking, MAX_RETRY - guard);
        guard := guard + 1;
      }
      NoMoreAttempts(Now(), Types(), size, alignment, blocking);
    }

    /** CommitWrite; false is CRB_ERROR_PERM, and bytes == 0 discards the request. */
    method CommitWrite(bytes: nat) returns (ok: bool)
      requires Valid() && bytes <= lastWriteBytes
      modifies this`offset, this`index, this`jumpOverHole, this`dataWritten, this`lastWriteBytes, this`lastAlignmentBytes, frameIdx, frameTypes
      ensures Valid() && ok == (old(lastWriteBytes) > 0)
      ensures offset == if ok && bytes > 0 then Adv(n, old(offset), bytes + old(lastAlignmentBytes)) else old(offset)
      ensures if ok && bytes > 0
              then Frames() == old(Frames())[old(index) := Frame(Adv(n, old(offset), old(lastAlignmentBytes)), bytes)]
              else Frames() == old(Frames())
      ensures Types() == if ok && bytes > 0 then old(Types())[old(index) := lastFrameType] else old(Types())
      ensures ok ==> lastWriteBytes == lastAlignmentBytes == 0 && !jumpOverHole
      ensures Does(old(Now()), RingRuns.CommitWrite(bytes))
    {
      hide IsAfter, TableOk, RingRuns.Fit, ReadersOnRing;
      ValidFits();
      ghost var r := Now();
      ok := lastWriteBytes > 0;
      if !ok {
        CommitCall(r, bytes, Now());
        return;
      }
      if bytes > 0 {
        frameIdx[index] := Frame(Adv(n, offset, lastAlignmentBytes), bytes);
        frameTypes[index] := lastFrameType;
        index := (index + 1) % MAX_FRAMES;
        offset := (offset + bytes + lastAlignmentBytes) % n;
        dataWritten := true;
      }
      lastWriteBytes, lastAlignmentBytes, jumpOverHole := 0, 0, false;
      CommitCall(r, bytes, Now());
    }
  }

  /** t is what the call makes of r, whenever it may be made. */
  ghost predicate IsAfter(r: RingRuns.Ring, call: RingRuns.Call, t: RingRuns.Ring) {
    RingRuns.Fit(r) && (RingRuns.CallOk(r, call) ==> t == RingRuns.After(r, call))
  }

  lemma TableCall(r: RingRuns.Ring, op: Op, t: RingRuns.Ring)
    requires RingRuns.Fit(r) && !op.ResetAll? && t == r.(shared := t.shared)
    requires OpOk(r.n, r.frames, r.shared, op) ==> t.shared == Step(r.n, r.frames, r.shared, op)
    ensures IsAfter(r, RingRuns.Table(op), t)
  {
  }

  lemma RequestCall(r: RingRuns.Ring, size: nat, align: nat, blocking: bool, out: Outcome, t: RingRuns.Ring)
    requires RingRuns.Fit(r) && out == RingRuns.Asked(r, size, align, blocking)
    requires t == if out.Granted? then r.(offset := Adv(r.n, r.offset, out.skip), last := size, pad := out.pad) else r
    ensures IsAfter(r, RingRuns.RequestWrite(size, align, blocking), t)
  {
  }

  // --------------------------------------------------------------- table lemmas

  lemma DeleteWhole(table: seq<Hole>, name: string)
    ensures table[..|table|] == table && table[|table|..] == []
    ensures DeleteOwned(table, name) == DeleteOwned(table[..|table|], name) + table[|table|..]
  {
  }

  /** Taking hole i out of cur, or leaving it in, as its owner says. */
  lemma DeleteStep(table: seq<Hole>, name: string, i: nat, cur: seq<Hole>)
    requires i < |table| && i < |cur| && cur[..i + 1] == table[..i + 1]
    ensures cur[i] == table[i] && cur[..i] == table[..i]
    ensures var next := if table[i].owner == name then cur[..i] + cur[i + 1..] else cur;
            && next[..i] == table[..i]
            && DeleteOwned(table[..i + 1], name) + cur[i + 1..] == DeleteOwned(table[..i], name) + next[i..]
  {
    var all := table[..i + 1];
    assert cur[i] == cur[..i + 1][i] == all[i] == table[i];
    assert all[..i] == table[..i];
    assert cur[..i] == cur[..i + 1][..i];
    var next := if table[i].owner == name then cur[..i] + cur[i + 1..] else cur;
    if table[i].owner == name {
      assert next[i..] == cur[i + 1..];
    } else {
      assert next[i..] == [cur[i]] + cur[i + 1..];
    }
  }

  /** A result for the rest of the table, put behind the part already passed. */
  function Behind(front: seq<Hole>, r: Inserted): Inserted {
    match r
    case Exists => Exists
    case Done(table) => Done(front + table)
  }

  lemma InsertStart(table: seq<Hole>, h: Hole)
    ensures Insert(table, h) == Behind(table[..0], Insert(table[0..], h))
  {
    assert table[0..] == table && table[..0] == [];
    if Insert(table, h).Done? {
      assert [] + Insert(table, h).table == Insert(table, h).table;
    }
  }

  lemma InsertHere(table: seq<Hole>, i: nat, h: Hole)
    requires i <= |table| && (i < |table| ==> Precedes(h.span, table[i].span))
    ensures Behind(table[..i], Insert(table[i..], h)) == Done(table[..i] + [h] + table[i..])
  {
    assert table[..i] + ([h] + table[i..]) == table[..i] + [h] + table[i..];
  }

  lemma CutOut(table: seq<Hole>, at: nat, r: seq<Hole>)
    requires at < |table| == |r| + 1 && forall k :: 0 <= k < |r| ==> r[k] == table[if at <= k then k + 1 else k]
    ensures r == table[..at] + table[at + 1..]
  {
  }

  lemma PutIn(table: seq<Hole>, at: nat, h: Hole, r: seq<Hole>)
    requires at <= |table| == |r| - 1 && r[at] == h
    requires forall k :: 0 <= k < |r| && k != at ==> r[k] == table[if k > at then k - 1 else k]
    ensures r == table[..at] + [h] + table[at..]
  {
  }

  lemma InsertStep(table: seq<Hole>, i: nat, h: Hole)
    requires i < |table|
    ensures !Precedes(h.span, table[i].span) && table[i].owner == h.owner
            ==> Behind(table[..i], Insert(table[i..], h)) == Exists
    ensures !Precedes(h.span, table[i].span) && table[i].owner != h.owner
            ==> Behind(table[..i], Insert(table[i..], h)) == Behind(table[..i + 1], Insert(table[i + 1..], h))
  {
    assert table[i..][1..] == table[i + 1..];
    if Insert(table[i + 1..], h).Done? {
      var rest := Insert(table[i + 1..], h).table;
      assert table[..i] + ([table[i]] + rest) == table[..i + 1] + rest;
    }
  }

  lemma MovesNothing(r: RingRuns.Ring, kinds: seq<nat>)
    requires RingRuns.Sound(r) && |kinds| == |r.frames|
    ensures RingRuns.RunCalls(r, RingIndex.Moves(r, kinds, []).calls) == r && !RingIndex.Moves(r, kinds, []).seen
  {
  }

  /** A refusal names installed consumers. */
  lemma NamedInstalled(t: RingRuns.Ring, size: nat, align: nat, out: Outcome)
    requires RingRuns.Fit(t) && out == RingRuns.Asked(t, size, align, false)
    ensures out.Refused? ==> forall k :: 0 <= k < |out.blockers| ==> out.blockers[k] < |t.shared.users| && Installed(t.shared.users[out.blockers[k]])
  {
    if out.Refused? {
      hide Needed, MinWritable, RingAlloc.Short;
      var need :| out.blockers == RingAlloc.Short(t.n, t.offset, t.shared.users, need);
      forall k | 0 <= k < |out.blockers|
        ensures out.blockers[k] < |t.shared.users| && Installed(t.shared.users[out.blockers[k]])
      {
        ShortExactly(t.n, t.offset, t.shared.users, need, out.blockers[k]);
        assert out.blockers[k] in out.blockers;
      }
    }
  }

  lemma RequestDone(r: RingRuns.Ring, kinds: seq<nat>, t: RingRuns.Ring, size: nat, align: nat, out: Outcome, u: RingRuns.Ring)
    requires RingRuns.Sound(r) && |kinds| == |r.frames| && t == RingRuns.RunCalls(r, RingIndex.Cleared(r, kinds))
    requires RingIndex.Divides(align, t.n) && IsAfter(t, RingRuns.RequestWrite(size, align, false), u)
    requires out == RingRuns.Asked(t, size, align, false)
    ensures u == RingRuns.RunCalls(r, RingIndex.Attempt(r, kinds, size, align)) && out == RingIndex.Answer(r, kinds, size, align)
  {
    hide RingRuns.RunCalls, RingIndex.Cleared, RingRuns.After, RingRuns.Asked, TableOk;
    RingIndex.RunSnoc(r, RingIndex.Cleared(r, kinds), RingRuns.RequestWrite(size, align, false));
  }

  lemma NoMoreAttempts(r: RingRuns.Ring, kinds: seq<nat>, size: nat, align: nat, blocking: bool)
    requires RingRuns.Sound(r) && |kinds| == |r.frames|
    ensures RingRuns.RunCalls(r, RingIndex.Attempts(r, kinds, size, align, blocking, 0)) == r
  {
  }

  lemma RefusalDone(r: RingRuns.Ring, kinds: seq<nat>, size: nat, align: nat, t: RingRuns.Ring, u: RingRuns.Ring)
    requires RingRuns.Sound(r) && |kinds| == |r.frames| && t == RingRuns.RunCalls(r, RingIndex.Attempt(r, kinds, size, align))
    requires u == RingRuns.RunCalls(t, RingIndex.Moves(t, kinds, RingIndex.NamedBy(RingIndex.Answer(r, kinds, size, align))).calls)
    ensures u == RingRuns.RunCalls(r, RingIndex.Refusal(r, kinds, size, align))
  {
    hide RingRuns.RunCalls, RingIndex.Moves, RingIndex.Attempt, RingIndex.Answer, RingRuns.Sound;
    RingIndex.RunConcat(r, RingIndex.Attempt(r, kinds, size, align),
                        RingIndex.Moves(t, kinds, RingIndex.NamedBy(RingIndex.Answer(r, kinds, size, align))).calls);
  }

  lemma OvertakeNames(n: nat, frames: seq<Frame>, s: Shared, i: nat, index: nat, wait: bool)
    requires FramesOk(n, frames) && UsersOk(n, frames, s.users) && i < |s.users| && index < |frames|
    ensures SameNames(s.users, Overtake(n, frames, s, i, index, wait).users)
  {
  }

  /** What one turn of MoveAllBlockers has done. */
  lemma MoveDone(r: RingRuns.Ring, kinds: seq<nat>, front: seq<nat>, i: nat, t: RingRuns.Ring, seen: bool,
                 target: nat, iFrame: bool, u: RingRuns.Ring)
    requires RingRuns.Sound(r) && |kinds| == |r.frames| && UserOk(t.shared, i)
    requires t == RingRuns.RunCalls(r, RingIndex.Moves(r, kinds, front).calls) && seen == RingIndex.Moves(r, kinds, front).seen
    requires RingIndex.Destination(target, iFrame) == RingIndex.Target(kinds, t.shared.users[i].index, t.index)
    requires IsAfter(t, RingRuns.Table(MoveBlocker(i, target, !(seen || iFrame))), u)
    ensures u == RingRuns.RunCalls(r, RingIndex.Moves(r, kinds, front + [i]).calls)
    ensures RingIndex.Moves(r, kinds, front + [i]).seen == (seen || iFrame)
  {
    hide RingIndex.Target, RingIndex.Moves, RingIndex.MoveNext, RingRuns.RunCalls, RingRuns.After, RingRuns.CallOk, TableOk;
    RingIndex.MovesSnoc(r, kinds, front, i);
    RingIndex.MoveIsMade(r, kinds, RingIndex.Moves(r, kinds, front), i, target, iFrame);
  }

  lemma CommitCall(r: RingRuns.Ring, bytes: nat, t: RingRuns.Ring)
    requires RingRuns.Fit(r) && t == RingRuns.Committing(r, bytes)
    ensures IsAfter(r, RingRuns.CommitWrite(bytes), t)
  {
  }

  predicate SameNames(a: seq<Consumer>, b: seq<Consumer>) {
    |a| == |b| && forall i :: 0 <= i < |a| ==> a[i].name == b[i].name
  }

  /** The two ways the loop goes over the table. */
  lemma RotateSplit(w: nat, hs: seq<Span>)
    ensures var k := Nearest(w, hs);
            && (k == 0 || k == |hs| ==> Rotate(w, hs) == [] + hs[0..|hs|])
            && Rotate(w, hs) == ([] + hs[k..|hs|]) + hs[0..k]
  {
  }

  lemma MergeNext(n: nat, done: seq<Span>, hs: seq<Span>, from: nat, i: nat)
    requires from <= i < |hs| && AllOnRing(n, hs) && AllOnRing(n, done) && AllOnRing(n, done + hs[from..i]) && SortedByStart(hs)
    ensures AllOnRing(n, done + hs[from..i + 1]) && OnRing(n, hs[i])
    ensures var ms := Merge(n, done + hs[from..i]);
            done == [] && ms != [] ==> ms[|ms| - 1].start <= hs[i].start
    ensures Merge(n, done + hs[from..i + 1]) == Push(n, Merge(n, done + hs[from..i]), hs[i])
  {
    var all := done + hs[from..i + 1];
    assert all == (done + hs[from..i]) + [hs[i]];
    assert all[..|all| - 1] == done + hs[from..i];
    if done == [] {
      LastStartsBefore(n, done + hs[from..i], hs[i].start);
    }
  }
}
