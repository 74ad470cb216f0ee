/** A reader that is neither moved nor told to discard gets every frame the producer has
    committed, in order, each once; and gives its bytes back by committing it. */
module RingReads {
  import opened RingGeometry
  import opened RingAlloc
  import opened RingTable
  import opened RingRuns
  import opened RingIndex

  // ----------------------------------------------------------------- the frame index

  /** The entries from index up to the producer's, going round, are fs. */
  ghost predicate Queued(frames: seq<Frame>, index: nat, p: nat, fs: seq<Frame>)
    requires index < |frames| && p < |frames|
  {
    |fs| == Fwd(|frames|, index, p) && forall j :: 0 <= j < |fs| ==> frames[Adv(|frames|, index, j)] == fs[j]
  }

  lemma QueuePush(frames: seq<Frame>, index: nat, p: nat, fs: seq<Frame>, x: Frame)
    requires index < |frames| && p < |frames| && Queued(frames, index, p, fs) && index != Next(|frames|, p)
    ensures Queued(frames[p := x], index, Next(|frames|, p), fs + [x])
  {
    var f, all := |frames|, fs + [x];
    forall j | 0 <= j < |all|
      ensures frames[p := x][Adv(f, index, j)] == all[j]
    {
      AdvSmall(f, index, j);
      Macros(f, index, p);
    }
  }

  lemma QueuePop(frames: seq<Frame>, index: nat, p: nat, fs: seq<Frame>)
    requires index < |frames| && p < |frames| && Queued(frames, index, p, fs) && fs != []
    ensures frames[index] == fs[0] && Queued(frames, Next(|frames|, index), p, fs[1..])
  {
    var f := |frames|;
    AdvSmall(f, index, 0);
    forall j | 0 <= j < |fs| - 1
      ensures frames[Adv(f, Next(f, index), j)] == fs[1..][j]
    {
      AdvSmall(f, Next(f, index), j);
      AdvSmall(f, index, j + 1);
    }
  }

  // ----------------------------------------------------------------------- the bytes

  /** The bytes from a to the end of frame x. */
  function Through(n: nat, a: nat, x: Frame): nat
    requires a < n && x.offset < n
  {
    Fwd(n, a, x.offset) + x.length
  }

  /** The frames lie one behind the other between a reader at a and the write offset w,
      perhaps with room between them, and none is empty. */
  predicate Laid(n: nat, a: nat, w: nat, fs: seq<Frame>)
    requires a < n && w < n
    decreases |fs|
  {
    fs == [] ||
    (&& fs[0].offset < n && 0 < fs[0].length && Through(n, a, fs[0]) <= Fwd(n, a, w)
     && Laid(n, Adv(n, a, Through(n, a, fs[0])), w, fs[1..]))
  }

  /** Going d bytes on brings everything further ahead d bytes nearer. */
  lemma Nearer(n: nat, a: nat, d: nat, x: nat)
    requires a < n && x < n && d <= Fwd(n, a, x)
    ensures Fwd(n, Adv(n, a, d), x) == Fwd(n, a, x) - d
  {
    AdvSmall(n, a, d);
  }

  lemma Further(n: nat, a: nat, w: nat, k: nat)
    requires a < n && w < n && Fwd(n, a, w) + k < n
    ensures Fwd(n, a, Adv(n, w, k)) == Fwd(n, a, w) + k
  {
    AdvSmall(n, w, k);
  }

  /** The reader goes to the first frame. */
  lemma LaidAtFirst(n: nat, a: nat, w: nat, fs: seq<Frame>)
    requires a < n && w < n && Laid(n, a, w, fs) && fs != []
    ensures Laid(n, fs[0].offset, w, fs)
    ensures Fwd(n, fs[0].offset, w) <= Fwd(n, a, w)
  {
    var d := Fwd(n, a, fs[0].offset);
    Macros(n, a, fs[0].offset);
    Nearer(n, a, d, w);
    AdvTwice(n, a, d, fs[0].length);
  }

  /** The producer goes k bytes on without meeting the reader. */
  lemma {:induction false} LaidAhead(n: nat, a: nat, w: nat, fs: seq<Frame>, k: nat)
    requires a < n && w < n && Laid(n, a, w, fs) && Fwd(n, a, w) + k < n
    ensures Laid(n, a, Adv(n, w, k), fs)
    decreases |fs|
  {
    Further(n, a, w, k);
    if fs != [] {
      var d := Through(n, a, fs[0]);
      Nearer(n, a, d, w);
      LaidAhead(n, Adv(n, a, d), w, fs[1..], k);
    }
  }

  /** It commits a frame behind some padding. */
  lemma {:induction false} LaidPush(n: nat, a: nat, w: nat, fs: seq<Frame>, pad: nat, bytes: nat)
    requires a < n && w < n && Laid(n, a, w, fs) && Fwd(n, a, w) + pad + bytes < n && 0 < bytes
    ensures Laid(n, a, Adv(n, w, bytes + pad), fs + [Frame(Adv(n, w, pad), bytes)])
    decreases |fs|
  {
    var x := Frame(Adv(n, w, pad), bytes);
    Further(n, a, w, pad);
    Further(n, a, w, bytes + pad);
    if fs == [] {
      assert fs + [x] == [x] && [x][1..] == [];
    } else {
      var d := Through(n, a, fs[0]);
      Nearer(n, a, d, w);
      LaidPush(n, Adv(n, a, d), w, fs[1..], pad, bytes);
      assert (fs + [x])[1..] == fs[1..] + [x];
    }
  }

  // ------------------------------------------------------------------- one reader

  /** fs are the frames reader u has not committed yet. */
  ghost predicate Unseen(r: Ring, u: nat, fs: seq<Frame>)
    requires Fit(r)
  {
    && UserOk(r.shared, u)
    && var c := r.shared.users[u];
    && Queued(r.frames, c.index, r.index, fs) && Laid(r.n, c.offset, r.offset, fs)
    && !c.state.Blocked?
    && (c.state.Holding? ==> fs != [] && c.refStart == c.refEnd == c.index && c.offset == fs[0].offset && !c.moved)
    && (r.last > 0 ==> !InTheWay(c, |r.frames|, r.index) && Fwd(r.n, c.offset, r.offset) + r.pad + r.last < r.n)
  }

  /** The calls of the run, as far as reader u goes: it reads with type ANY, which gives the
      next frame, and commits the length of what it holds.  It is not moved, does not discard,
      and nothing is reset; other readers do as they like.  RequestWriteFrame asks for bytes
      only when the reader is not in the way of the next slot. */
  predicate PlainCall(r: Ring, u: nat, call: Call)
    requires Fit(r) && CallOk(r, call) && u < |r.shared.users|
  {
    match call
    case Table(op) =>
      (match op
       case RequestRead(user, first, last) =>
         user == u ==> first == last == r.shared.users[u].index && first != r.index
       case CommitRead(user, bytes) =>
         user == u ==> r.shared.users[u].state.Holding? && bytes == r.frames[r.shared.users[u].refStart].length
       case Discard(user, index, offset) => user != u
       case MoveBlocker(user, index, wait) => user != u
       case ResetAll => false
       case _ => true)
    case RequestWrite(size, align, blocking) => !InTheWay(r.shared.users[u], |r.frames|, r.index)
    case CommitWrite(bytes) => true
  }

  /** The frame a call commits, if any. */
  function Commits(r: Ring, call: Call): seq<Frame>
    requires Fit(r)
  {
    if call.CommitWrite? && r.last > 0 && call.bytes > 0 then [Frame(Adv(r.n, r.offset, r.pad), call.bytes)] else []
  }

  /** The call by which reader u gives back what it holds. */
  predicate GivesBack(u: nat, call: Call) {
    call.Table? && call.op.CommitRead? && call.op.user == u
  }

  // -------------------------------------------------------------------- one call

  /** Nothing that concerns the reader changes. */
  lemma SameReader(r: Ring, t: Ring, u: nat, fs: seq<Frame>)
    requires Fit(r) && Fit(t) && Unseen(r, u, fs) && t == r.(shared := t.shared)
    requires u < |t.shared.users| && t.shared.users[u] == r.shared.users[u]
    ensures Unseen(t, u, fs)
  {
    hide Queued, Laid, InTheWay;
  }

  lemma OtherCall(r: Ring, u: nat, op: Op)
    requires Sound(r) && u < |r.shared.users| && CallOk(r, Table(op)) && PlainCall(r, u, Table(op))
    requires !(op.RequestRead? && op.user == u) && !GivesBack(u, Table(op))
    ensures var t := After(r, Table(op));
            t == r.(shared := t.shared) && u < |t.shared.users| && t.shared.users[u] == r.shared.users[u]
  {
    hide Insert, HeldSpan, DeleteOwned, InTheWay, TableOk;
  }

  lemma ReadCall(r: Ring, u: nat, fs: seq<Frame>, first: nat, last: nat)
    requires Sound(r) && Unseen(r, u, fs)
    requires CallOk(r, Table(RequestRead(u, first, last))) && PlainCall(r, u, Table(RequestRead(u, first, last)))
    ensures Fit(After(r, Table(RequestRead(u, first, last)))) && Unseen(After(r, Table(RequestRead(u, first, last))), u, fs)
  {
    hide DeleteOwned, TableOk, Laid, Queued;
    CallSound(r, Table(RequestRead(u, first, last)));
    NextFirst(r, u, fs);
    LaidAtFirst(r.n, r.shared.users[u].offset, r.offset, fs);
  }

  /** With frames left, the reader's own entry is the first of them. */
  lemma NextFirst(r: Ring, u: nat, fs: seq<Frame>)
    requires Fit(r) && Unseen(r, u, fs) && r.shared.users[u].index != r.index
    ensures fs != [] && r.frames[r.shared.users[u].index] == fs[0]
  {
    QueuePop(r.frames, r.shared.users[u].index, r.index, fs);
  }

  lemma GiveBackCall(r: Ring, u: nat, fs: seq<Frame>, bytes: nat)
    requires Sound(r) && Unseen(r, u, fs)
    requires CallOk(r, Table(CommitRead(u, bytes))) && PlainCall(r, u, Table(CommitRead(u, bytes)))
    ensures fs != [] && r.frames[r.shared.users[u].refStart] == fs[0] && bytes == fs[0].length
    ensures Fit(After(r, Table(CommitRead(u, bytes)))) && Unseen(After(r, Table(CommitRead(u, bytes))), u, fs[1..])
  {
    hide DeleteOwned, TableOk;
    var c := r.shared.users[u];
    CallSound(r, Table(CommitRead(u, bytes)));
    QueuePop(r.frames, c.index, r.index, fs);
    Nearer(r.n, c.offset, bytes, r.offset);
    hide Laid, Queued;
    StaysOut(c.index, |r.frames|, r.index);
  }

  /** A reader that goes one frame on does not get in the way. */
  lemma StaysOut(i: nat, f: nat, p: nat)
    requires i < f && p < f && i != p
    ensures Next(f, i) != Next(f, p)
  {
  }

  lemma GrantLeavesRoom(r: Ring, u: nat, size: nat, align: nat, blocking: bool)
    requires Sound(r) && UserOk(r.shared, u) && CallOk(r, RequestWrite(size, align, blocking))
    requires Asked(r, size, align, blocking).Granted?
    ensures var g := Asked(r, size, align, blocking);
            Fwd(r.n, r.shared.users[u].offset, r.offset) + g.skip + g.pad + size < r.n
  {
    hide Leap, TableOk, MinWritable, Request;
    UsersAreReaders(r);
    GrantFacts(r.n, r.offset, r.shared.users, Holes(r), size, align, blocking, r.written);
    MinIsLeast(r.n, r.offset, r.shared.users);
  }

  lemma RequestCall(r: Ring, u: nat, fs: seq<Frame>, size: nat, align: nat, blocking: bool)
    requires Sound(r) && Unseen(r, u, fs)
    requires CallOk(r, RequestWrite(size, align, blocking)) && PlainCall(r, u, RequestWrite(size, align, blocking))
    ensures Fit(After(r, RequestWrite(size, align, blocking))) && Unseen(After(r, RequestWrite(size, align, blocking)), u, fs)
  {
    CallSound(r, RequestWrite(size, align, blocking));
    hide TableOk, Laid, Queued, Request;
    if Asked(r, size, align, blocking).Granted? {
      GrantLeavesRoom(r, u, size, align, blocking);
      var g := Asked(r, size, align, blocking);
      LaidAhead(r.n, r.shared.users[u].offset, r.offset, fs, g.skip);
      Further(r.n, r.shared.users[u].offset, r.offset, g.skip);
    }
  }

  lemma CommitCall(r: Ring, u: nat, fs: seq<Frame>, bytes: nat)
    requires Sound(r) && Unseen(r, u, fs) && CallOk(r, CommitWrite(bytes))
    ensures Fit(After(r, CommitWrite(bytes))) && Unseen(After(r, CommitWrite(bytes)), u, fs + Commits(r, CommitWrite(bytes)))
  {
    CallSound(r, CommitWrite(bytes));
    hide TableOk, Laid, Queued;
    if r.last > 0 && bytes > 0 {
      var c := r.shared.users[u];
      LaidPush(r.n, c.offset, r.offset, fs, r.pad, bytes);
      QueuePush(r.frames, c.index, r.index, fs, Frame(Adv(r.n, r.offset, r.pad), bytes));
    } else {
      assert fs + [] == fs;
    }
  }

  /** What the reader has not committed, after a call. */
  function Left(r: Ring, u: nat, fs: seq<Frame>, call: Call): seq<Frame>
    requires Fit(r)
  {
    (if GivesBack(u, call) && fs != [] then fs[1..] else fs) + Commits(r, call)
  }

  lemma PlainStep(r: Ring, u: nat, fs: seq<Frame>, call: Call)
    requires Sound(r) && Unseen(r, u, fs) && CallOk(r, call) && PlainCall(r, u, call)
    ensures GivesBack(u, call) ==> fs != [] && r.frames[r.shared.users[u].refStart] == fs[0]
    ensures Fit(After(r, call)) && Unseen(After(r, call), u, Left(r, u, fs, call))
  {
    hide Unseen, PlainCall, TableOk, FramesOk, UsersOk;
    CallSound(r, call);
    assert UserOk(r.shared, u) by { ReaderThere(r, u, fs); }
    match call
    case Table(op) =>
      assert fs + [] == fs && (fs != [] ==> fs[1..] + [] == fs[1..]);
      if op.RequestRead? && op.user == u {
        ReadCall(r, u, fs, op.first, op.last);
      } else if GivesBack(u, call) {
        GiveBackCall(r, u, fs, op.bytes);
      } else {
        OtherCall(r, u, op);
        SameReader(r, After(r, call), u, fs);
      }
    case RequestWrite(size, align, blocking) =>
      assert fs + [] == fs;
      RequestCall(r, u, fs, size, align, blocking);
    case CommitWrite(bytes) => CommitCall(r, u, fs, bytes);
  }

  lemma ReaderThere(r: Ring, u: nat, fs: seq<Frame>)
    requires Fit(r) && Unseen(r, u, fs)
    ensures UserOk(r.shared, u)
  {
  }

  // --------------------------------------------------------------------- all runs

  ghost predicate PlainRun(r: Ring, calls: seq<Call>, u: nat)
    requires Sound(r) && u < |r.shared.users|
  {
    calls == [] ||
    var t, call := RunCalls(r, calls[..|calls| - 1]), calls[|calls| - 1];
    PlainRun(r, calls[..|calls| - 1], u) && (CallOk(t, call) ==> PlainCall(t, u, call))
  }

  /** The frames the producer has committed in the run, in order. */
  ghost function Written(r: Ring, calls: seq<Call>): seq<Frame>
    requires Sound(r)
  {
    if calls == [] then []
    else
      var t, call := RunCalls(r, calls[..|calls| - 1]), calls[|calls| - 1];
      Written(r, calls[..|calls| - 1]) + (if CallOk(t, call) then Commits(t, call) else [])
  }

  /** The frames reader u was holding at each of its commits, in order. */
  ghost function Taken(r: Ring, calls: seq<Call>, u: nat): seq<Frame>
    requires Sound(r) && u < |r.shared.users|
  {
    if calls == [] then []
    else
      var t, call := RunCalls(r, calls[..|calls| - 1]), calls[|calls| - 1];
      Taken(r, calls[..|calls| - 1], u)
      + (if CallOk(t, call) && GivesBack(u, call) then [t.frames[t.shared.users[u].refStart]] else [])
  }

  /** A reader at the write offset that holds nothing, while no grant is out. */
  predicate AtTheEnd(r: Ring, u: nat)
    requires Fit(r)
  {
    && UserOk(r.shared, u) && r.last == 0
    && r.shared.users[u].index == r.index && r.shared.users[u].offset == r.offset && r.shared.users[u].state.Free?
  }

  /** Taking one frame off, and adding some at the end. */
  lemma TakeOff(written: seq<Frame>, taken: seq<Frame>, more: seq<Frame>)
    requires taken <= written
    ensures taken <= written + more && (written + more)[|taken|..] == written[|taken|..] + more
    ensures taken < written ==>
              var x := written[|taken|];
              taken + [x] <= written + more && (written + more)[|taken + [x]|..] == written[|taken|..][1..] + more
  {
    if taken < written {
      assert written == written[..|taken|] + [written[|taken|]] + written[|taken| + 1..];
    }
  }

  lemma {:induction false} RunReads(r: Ring, calls: seq<Call>, u: nat)
    requires Sound(r) && AtTheEnd(r, u) && PlainRun(r, calls, u)
    ensures var w, d := Written(r, calls), Taken(r, calls, u);
            d <= w && Unseen(RunCalls(r, calls), u, w[|d|..])
  {
    if calls == [] {
      NothingSeen(r, u);
    } else {
      hide RunCalls, Unseen, After, CallOk, PlainCall, Sound, Commits, AtTheEnd;
      var front, call := calls[..|calls| - 1], calls[|calls| - 1];
      RunReads(r, front, u);
      var w, d := Written(r, front), Taken(r, front, u);
      OneMoreCall(r, front, call, u, w, d);
    }
  }

  lemma NothingSeen(r: Ring, u: nat)
    requires Fit(r) && AtTheEnd(r, u)
    ensures Unseen(r, u, [])
  {
  }

  lemma OneMoreCall(r: Ring, front: seq<Call>, call: Call, u: nat, w: seq<Frame>, d: seq<Frame>)
    requires Sound(r) && u < |r.shared.users| && d <= w && Unseen(RunCalls(r, front), u, w[|d|..])
    requires CallOk(RunCalls(r, front), call) ==> PlainCall(RunCalls(r, front), u, call)
    ensures var t := RunCalls(r, front);
            var ok := CallOk(t, call);
            var w1 := w + if ok then Commits(t, call) else [];
            var d1 := d + if ok && GivesBack(u, call) then [t.frames[t.shared.users[u].refStart]] else [];
            d1 <= w1 && Unseen(RunCalls(r, front + [call]), u, w1[|d1|..])
  {
    hide RunCalls, Unseen, After, PlainCall, TableOk, Commits, CallOk;
    var t := RunCalls(r, front);
    RunSnoc(r, front, call);
    if CallOk(t, call) {
      PlainStep(t, u, w[|d|..], call);
      TakeOff(w, d, Commits(t, call));
    } else {
      assert w + [] == w && d + [] == d;
    }
  }

  /** A reader that starts at the write offset gets the frames the producer commits from then
      on, in order and each once: those it has given back are a prefix of those committed, what
      it holds is the one after them, and its index is as many frames behind the producer's
      as are left. */
  lemma ReadsInOrder(r: Ring, calls: seq<Call>, u: nat)
    requires Sound(r) && AtTheEnd(r, u) && PlainRun(r, calls, u)
    ensures var t, w, d := RunCalls(r, calls), Written(r, calls), Taken(r, calls, u);
            var c := t.shared.users[u];
            && d <= w && |w| - |d| == Fwd(|t.frames|, c.index, t.index)
            && !c.state.Blocked?
            && (c.state.Holding? ==> d < w && t.frames[c.refStart] == t.frames[c.refEnd] == w[|d|])
  {
    hide RunCalls, Written, Taken, TableOk, Laid;
    RunReads(r, calls, u);
    var t := RunCalls(r, calls);
    var c, fs := t.shared.users[u], Written(r, calls)[|Taken(r, calls, u)|..];
    if c.state.Holding? {
      QueuePop(t.frames, c.index, t.index, fs);
    }
  }

  lemma FirstReadable(r: Ring, u: nat, fs: seq<Frame>)
    requires Fit(r) && Unseen(r, u, fs) && fs != []
    ensures Readable(r, r.shared.users[u].index, r.shared.users[u].index)
  {
    var c := r.shared.users[u];
    QueuePop(r.frames, c.index, r.index, fs);
    LaidAtFirst(r.n, c.offset, r.offset, fs);
  }

  /** RequestReadFrame with type ANY gives such a reader the next frame it has not given back,
      all bytes of which are there; and nothing when there is none. */
  lemma ReadsNext(r: Ring, calls: seq<Call>, u: nat, kinds: seq<nat>)
    requires Sound(r) && AtTheEnd(r, u) && PlainRun(r, calls, u) && |kinds| == |r.frames|
    ensures var t, w, d := RunCalls(r, calls), Written(r, calls), Taken(r, calls, u);
            var i := t.shared.users[u].index;
            && (d == w ==> ReadOp(t, kinds, u, 9) == RequestNothing(u))
            && (d != w ==> d < w && ReadOp(t, kinds, u, 9) == RequestRead(u, i, i) && t.frames[i] == w[|d|])
  {
    hide RunCalls, Written, Taken, TableOk, Laid, Readable;
    RunReads(r, calls, u);
    var t, fs := RunCalls(r, calls), Written(r, calls)[|Taken(r, calls, u)|..];
    if fs != [] {
      FirstReadable(t, u, fs);
      QueuePop(t.frames, t.shared.users[u].index, t.index, fs);
    }
  }

  lemma GivenBack(n: nat, w: nat, a: nat, len: nat, k: nat)
    requires w < n && a < n && k < len <= Fwd(n, a, w)
    ensures Unread(n, w, a, Adv(n, a, k)) && !Unread(n, w, Adv(n, a, len), Adv(n, a, k))
    ensures Writable(n, w, Adv(n, a, len)) == Writable(n, w, a) + len
  {
    AdvSmall(n, a, k);
    AdvSmall(n, a, len);
  }

  /** Committing what it holds takes such a reader one frame on and gives every byte of the
      frame, none of which could be written before, back to the producer. */
  lemma CommitGivesBack(r: Ring, calls: seq<Call>, u: nat, k: nat)
    requires Sound(r) && AtTheEnd(r, u) && PlainRun(r, calls, u)
    requires var c := RunCalls(r, calls).shared.users[u];
             c.state.Holding? && k < RunCalls(r, calls).frames[c.refStart].length
    ensures var t := RunCalls(r, calls);
            var c := t.shared.users[u];
            var x := t.frames[c.refStart];
            var call := Table(CommitRead(u, x.length));
            && CallOk(t, call) && PlainCall(t, u, call)
            && var d := After(t, call).shared.users[u];
            && d.state.Free? && Fwd(|t.frames|, d.index, t.index) == Fwd(|t.frames|, c.index, t.index) - 1
            && d.offset < t.n && Writable(t.n, t.offset, d.offset) == Writable(t.n, t.offset, c.offset) + x.length
            && Unread(t.n, t.offset, c.offset, Adv(t.n, x.offset, k)) && !Unread(t.n, t.offset, d.offset, Adv(t.n, x.offset, k))
  {
    hide RunCalls, Written, Taken, TableOk;
    RunReads(r, calls, u);
    CommitsNext(RunCalls(r, calls), u, Written(r, calls)[|Taken(r, calls, u)|..], k);
  }

  lemma CommitsNext(t: Ring, u: nat, fs: seq<Frame>, k: nat)
    requires Sound(t) && Unseen(t, u, fs)
    requires var c := t.shared.users[u]; c.state.Holding? && k < t.frames[c.refStart].length
    ensures var c := t.shared.users[u];
            var x := t.frames[c.refStart];
            var call := Table(CommitRead(u, x.length));
            && CallOk(t, call) && PlainCall(t, u, call)
            && var d := After(t, call).shared.users[u];
            && d.state.Free? && Fwd(|t.frames|, d.index, t.index) == Fwd(|t.frames|, c.index, t.index) - 1
            && d.offset < t.n && Writable(t.n, t.offset, d.offset) == Writable(t.n, t.offset, c.offset) + x.length
            && Unread(t.n, t.offset, c.offset, Adv(t.n, x.offset, k)) && !Unread(t.n, t.offset, d.offset, Adv(t.n, x.offset, k))
  {
    var c := t.shared.users[u];
    QueuePop(t.frames, c.index, t.index, fs);
    GivenBack(t.n, t.offset, c.offset, fs[0].length, k);
    hide TableOk, DeleteOwned, Queued, Adv, Unread, Writable, UsersOk, FramesOk;
  }

  /** x is the first frame of the type from i on and before the producer's; ANY, 9, is every
      type. */
  predicate FirstOfKind(kinds: seq<nat>, i: nat, p: nat, kind: nat, x: nat)
    requires i < |kinds| && p < |kinds| && x < |kinds|
  {
    && (kind == 9 || kinds[x] == kind) && Fwd(|kinds|, i, x) < Fwd(|kinds|, i, p)
    && forall y :: 0 <= y < |kinds| && (kind == 9 || kinds[y] == kind) ==> Fwd(|kinds|, i, x) <= Fwd(|kinds|, i, y)
  }

  /** RequestReadFrame, in any state, gives the first frame of the type wanted if all its bytes
      have been written, and no other frame. */
  lemma ReadsFirst(r: Ring, kinds: seq<nat>, u: nat, kind: nat, x: nat)
    requires Fit(r) && |kinds| == |r.frames| && u < |r.shared.users| && x < |kinds|
    ensures ReadOp(r, kinds, u, kind) == RequestRead(u, x, x)
       <==> FirstOfKind(kinds, r.shared.users[u].index, r.index, kind, x)
            && 0 < r.frames[x].length <= Fwd(r.n, r.frames[x].offset, r.offset)
    ensures ReadOp(r, kinds, u, kind) == RequestNothing(u) || exists y :: 0 <= y < |kinds| && ReadOp(r, kinds, u, kind) == RequestRead(u, y, y)
  {
    hide NextFrame;
    var i := r.shared.users[u].index;
    NextFrameExactly(kinds, i, r.index, kind, x);
    assert FirstOfKind(kinds, i, r.index, kind, x) <==> NextFrame(kinds, i, r.index, kind) == At(x) by {
      assert forall y :: 0 <= y < |kinds| ==> (Matches(kinds, kind, y) <==> kind == 9 || kinds[y] == kind);
    }
  }
}
