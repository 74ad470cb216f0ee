/** The table of black holes and the consumers that own them, through every call that
    changes either. */
module RingTable {
  import opened RingGeometry
  import opened RingAlloc

  /** An entry of the frame index. */
  datatype Frame = Frame(offset: nat, length: nat)

  /** A frame that an overtaken consumer still holds. */
  datatype Hole = Hole(span: Span, owner: string)

  predicate Precedes(a: Span, b: Span) {
    a.start < b.start || (a.start == b.start && a.end < b.end)
  }

  /** The table after InsertBlackHole, and whether it refused. */
  datatype Inserted = Done(table: seq<Hole>) | Exists

  /** InsertBlackHole: the first place where the new hole goes before what is there; a
      hole of the same owner met on the way is an error. */
  function Insert(table: seq<Hole>, h: Hole): Inserted {
    if table == [] then Done([h])
    else if Precedes(h.span, table[0].span) then Done([h] + table)
    else if table[0].owner == h.owner then Exists
    else
      match Insert(table[1..], h)
      case Exists => Exists
      case Done(rest) => Done([table[0]] + rest)
  }

  /** DeleteBlackHoleOwnedBy */
  function DeleteOwned(table: seq<Hole>, name: string): (r: seq<Hole>)
    ensures |r| <= |table|
  {
    if table == [] then []
    else
      var k := |table| - 1;
      if table[k].owner == name then DeleteOwned(table[..k], name) else DeleteOwned(table[..k], name) + [table[k]]
  }

  /** What the mutex protects. */
  datatype Shared = Shared(users: seq<Consumer>, table: seq<Hole>)

  /** MoveConsumer */
  function Moved(c: Consumer, index: nat, offset: nat, wait: bool): Consumer {
    c.(index := index, offset := offset, refStart := index, refEnd := index, waitIFrame := wait)
  }

  /** The bytes of the frames a consumer holds. */
  function HeldSpan(n: nat, frames: seq<Frame>, c: Consumer): Span
    requires n > 0 && c.refStart < |frames| && c.refEnd < |frames| && frames[c.refEnd].offset < n
  {
    Span(frames[c.refStart].offset, Adv(n, frames[c.refEnd].offset, frames[c.refEnd].length))
  }

  predicate FramesOk(n: nat, frames: seq<Frame>) {
    n > 0 && frames != [] && forall i :: 0 <= i < |frames| ==> frames[i].offset < n
  }

  predicate UsersOk(n: nat, frames: seq<Frame>, users: seq<Consumer>) {
    forall i :: 0 <= i < |users| ==>
      users[i].index < |frames| && users[i].refStart < |frames| && users[i].refEnd < |frames| && users[i].offset < n
  }

  /** A consumer that still holds frames gets a black hole around them. */
  function Isolate(n: nat, frames: seq<Frame>, s: Shared, i: nat): Shared
    requires FramesOk(n, frames) && UsersOk(n, frames, s.users) && i < |s.users|
  {
    var c := s.users[i];
    match Insert(s.table, Hole(HeldSpan(n, frames, c), c.name))
    case Exists => s
    case Done(table) => s.(table := table)
  }

  /** One turn of MoveAllBlockers: consumer i is overtaken and moved to frame index. */
  function Overtake(n: nat, frames: seq<Frame>, s: Shared, i: nat, index: nat, wait: bool): Shared
    requires FramesOk(n, frames) && UsersOk(n, frames, s.users) && i < |s.users| && index < |frames|
  {
    var s1 := if s.users[i].state.Holding? then Isolate(n, frames, s, i) else s;
    var c := Moved(s.users[i], index, frames[index].offset, wait);
    s1.(users := s.users[i := if c.state.Free? then c else c.(moved := true, state := Blocked)])
  }

  /** One turn of ResetAllUser. */
  function ResetUser(n: nat, frames: seq<Frame>, s: Shared, i: nat): Shared
    requires FramesOk(n, frames) && UsersOk(n, frames, s.users) && i < |s.users|
  {
    if !Installed(s.users[i]) then s
    else
      var s1 := if s.users[i].state.Holding? then Isolate(n, frames, s, i) else s;
      var c := Moved(s.users[i], 0, 0, true);
      s1.(users := s.users[i := if c.state.Free? then c else c.(moved := true, state := Blocked)])
  }

  /** ResetAllUser, the consumers from slot i on. */
  function ResetFrom(n: nat, frames: seq<Frame>, s: Shared, i: nat): Shared
    requires FramesOk(n, frames) && UsersOk(n, frames, s.users) && i <= |s.users|
    decreases |s.users| - i
  {
    if i == |s.users| then s
    else ResetFrom(n, frames, ResetUser(n, frames, s, i), i + 1)
  }

  /** The calls of one consumer, and the producer's two that move consumers.  Which frame
      a read finds, and which frame a blocker is moved to, is left to the caller. */
  datatype Op =
    | RequestRead(user: nat, first: nat, last: nat)
    | RequestNothing(user: nat)
    | CommitRead(user: nat, bytes: nat)
    | CommitNothing(user: nat)
    | Discard(user: nat, index: nat, offset: nat)
    | MoveBlocker(user: nat, index: nat, wait: bool)
    | ResetAll

  predicate UserOk(s: Shared, user: nat) {
    user < |s.users| && Installed(s.users[user])
  }

  predicate OpOk(n: nat, frames: seq<Frame>, s: Shared, op: Op) {
    match op
    case RequestRead(user, first, last) => UserOk(s, user) && first < |frames| && last < |frames|
    case RequestNothing(user) => UserOk(s, user)
    case CommitRead(user, bytes) => UserOk(s, user)
    case CommitNothing(user) => UserOk(s, user)
    case Discard(user, index, offset) => UserOk(s, user) && index < |frames| && offset < n
    case MoveBlocker(user, index, wait) => UserOk(s, user) && index < |frames|
    case ResetAll => true
  }

  /** Every consumer call starts by giving up the caller's holes. */
  function Release(s: Shared, user: nat): Shared
    requires user < |s.users|
  {
    s.(table := DeleteOwned(s.table, s.users[user].name))
  }

  function Update(s: Shared, user: nat, c: Consumer): Shared
    requires user < |s.users|
  {
    s.(users := s.users[user := c])
  }

  function Step(n: nat, frames: seq<Frame>, s: Shared, op: Op): Shared
    requires FramesOk(n, frames) && UsersOk(n, frames, s.users) && OpOk(n, frames, s, op)
  {
    match op
    case RequestRead(user, first, last) =>
      var c := Moved(s.users[user], first, frames[first].offset, false);
      Update(Release(s, user), user, c.(refEnd := last, state := Holding, moved := false))
    case RequestNothing(user) => Release(s, user)
    case CommitRead(user, bytes) =>
      var c := s.users[user];
      var next := (c.refEnd + 1) % |frames|;
      var d := if c.moved then c else Moved(c, next, Adv(n, c.offset, bytes), false);
      Update(Release(s, user), user, d.(state := Free, moved := false))
    case CommitNothing(user) => Release(s, user)
    case Discard(user, index, offset) =>
      Update(Release(s, user), user, Moved(s.users[user], index, offset, true).(state := Free, moved := false))
    case MoveBlocker(user, index, wait) => Overtake(n, frames, s, user, index, wait)
    case ResetAll => ResetFrom(n, frames, s, 0)
  }

  // ---------------------------------------------------------------- the invariant

  ghost predicate Sorted(table: seq<Hole>) {
    forall i, j :: 0 <= i < j < |table| ==> !Precedes(table[j].span, table[i].span)
  }

  /** By start, and by end among those with the same start. */
  ghost predicate ByStartThenEnd(table: seq<Hole>) {
    forall i, j :: 0 <= i < j < |table| ==>
      var a, b := table[i].span, table[j].span;
      a.start < b.start || (a.start == b.start && a.end <= b.end)
  }

  lemma SortedMeans(table: seq<Hole>)
    ensures Sorted(table) <==> ByStartThenEnd(table)
  {
    if Sorted(table) {
      forall i, j | 0 <= i < j < |table|
        ensures var a, b := table[i].span, table[j].span; a.start < b.start || (a.start == b.start && a.end <= b.end)
      {
        assert !Precedes(table[j].span, table[i].span);
      }
    }
  }

  /** No two holes have the same owner. */
  ghost predicate OneEach(table: seq<Hole>) {
    forall i, j :: 0 <= i < j < |table| ==> table[i].owner != table[j].owner
  }

  predicate NamesDiffer(users: seq<Consumer>) {
    forall i, j :: 0 <= i < j < |users| && Installed(users[i]) && Installed(users[j]) ==> users[i].name != users[j].name
  }

  ghost predicate OwnedByBlocked(users: seq<Consumer>, name: string) {
    exists i :: 0 <= i < |users| && Installed(users[i]) && users[i].name == name && users[i].state.Blocked?
  }

  ghost predicate Owned(users: seq<Consumer>, table: seq<Hole>) {
    forall k :: 0 <= k < |table| ==> OwnedByBlocked(users, table[k].owner)
  }

  /** The table is sorted by (start, end), its owners are different blocked consumers. */
  ghost predicate TableOk(n: nat, s: Shared) {
    && Sorted(s.table) && OneEach(s.table) && NamesDiffer(s.users) && Owned(s.users, s.table)
    && forall k :: 0 <= k < |s.table| ==> OnRing(n, s.table[k].span)
  }

  // ------------------------------------------------------------ table operations

  ghost predicate NotOwner(table: seq<Hole>, name: string) {
    forall k :: 0 <= k < |table| ==> table[k].owner != name
  }

  lemma {:induction false} InsertPlace(table: seq<Hole>, h: Hole) returns (k: nat)
    requires NotOwner(table, h.owner)
    ensures k <= |table| && Insert(table, h) == Done(table[..k] + [h] + table[k..])
    ensures forall i :: 0 <= i < k ==> !Precedes(h.span, table[i].span)
    ensures k < |table| ==> Precedes(h.span, table[k].span)
  {
    if table == [] || Precedes(h.span, table[0].span) {
      k := 0;
    } else {
      var j := InsertPlace(table[1..], h);
      k := j + 1;
      assert table[..k] == [table[0]] + table[1..][..j];
      assert table[k..] == table[1..][j..];
      assert forall i :: 0 < i < k ==> table[i] == table[1..][i - 1];
    }
  }

  /** An owner without a hole gets exactly one, and the table stays sorted. */
  lemma InsertKeeps(table: seq<Hole>, h: Hole)
    requires Sorted(table) && OneEach(table) && NotOwner(table, h.owner)
    ensures Insert(table, h).Done?
    ensures var r := Insert(table, h).table;
            && Sorted(r) && OneEach(r) && |r| == |table| + 1
            && forall x :: x in r <==> x in table || x == h
  {
    var k := InsertPlace(table, h);
    var r := table[..k] + [h] + table[k..];
    assert table == table[..k] + table[k..];
    forall i, j | 0 <= i < j < |r|
      ensures !Precedes(r[j].span, r[i].span) && r[i].owner != r[j].owner
    {
      assert r[i] == if i < k then table[i] else if i == k then h else table[i - 1];
      assert r[j] == if j < k then table[j] else if j == k then h else table[j - 1];
      if i == k && j - 1 > k {
        assert !Precedes(table[j - 1].span, table[k].span);
      }
    }
  }

  lemma {:induction false} DeleteExactly(table: seq<Hole>, name: string)
    ensures forall h :: h in DeleteOwned(table, name) <==> h in table && h.owner != name
  {
    if table != [] {
      var k := |table| - 1;
      DeleteExactly(table[..k], name);
      assert table == table[..k] + [table[k]];
    }
  }

  lemma {:induction false} DeleteSorted(table: seq<Hole>, name: string)
    requires Sorted(table)
    ensures Sorted(DeleteOwned(table, name))
  {
    if table != [] {
      var k := |table| - 1;
      DeleteSorted(table[..k], name);
      DeleteExactly(table[..k], name);
      var front := DeleteOwned(table[..k], name);
      assert forall i :: 0 <= i < |front| ==> front[i] in table[..k];
    }
  }

  lemma {:induction false} DeleteNothing(table: seq<Hole>, name: string)
    requires NotOwner(table, name)
    ensures DeleteOwned(table, name) == table
  {
    if table != [] {
      DeleteNothing(table[..|table| - 1], name);
    }
  }

  lemma {:induction false} DeleteOneEach(table: seq<Hole>, name: string)
    requires OneEach(table)
    ensures OneEach(DeleteOwned(table, name)) && |table| <= |DeleteOwned(table, name)| + 1
  {
    if table != [] {
      var k := |table| - 1;
      DeleteOneEach(table[..k], name);
      if table[k].owner == name {
        DeleteNothing(table[..k], name);
      } else {
        DeleteExactly(table[..k], name);
        LastIsOther(table, DeleteOwned(table[..k], name));
      }
    }
  }

  /** Adding the last hole back to some of the others. */
  lemma LastIsOther(table: seq<Hole>, front: seq<Hole>)
    requires OneEach(table) && table != [] && OneEach(front)
    requires forall h :: h in front ==> h in table[..|table| - 1]
    ensures OneEach(front + [table[|table| - 1]])
  {
    var k := |table| - 1;
    forall i | 0 <= i < |front|
      ensures front[i].owner != table[k].owner
    {
      assert front[i] in front;
      var j :| 0 <= j < k && table[..k][j] == front[i];
    }
  }

  /** Deleting keeps the order and takes out at most one hole. */
  lemma DeleteKeeps(table: seq<Hole>, name: string)
    requires Sorted(table) && OneEach(table)
    ensures var r := DeleteOwned(table, name);
            Sorted(r) && OneEach(r) && |table| <= |r| + 1 && NotOwner(r, name)
  {
    DeleteSorted(table, name);
    DeleteOneEach(table, name);
    DeleteExactly(table, name);
    var r := DeleteOwned(table, name);
    assert forall i :: 0 <= i < |r| ==> r[i] in r;
  }

  // ------------------------------------------------------------------- counting

  function CountBlocked(users: seq<Consumer>): (c: nat)
    ensures c <= |users|
  {
    if users == [] then 0
    else CountBlocked(users[..|users| - 1]) + (if users[|users| - 1].state.Blocked? then 1 else 0)
  }

  lemma {:induction false} CountBelow(users: seq<Consumer>, i: nat)
    requires i < |users| && !users[i].state.Blocked?
    ensures CountBlocked(users) < |users|
  {
    if i < |users| - 1 {
      CountBelow(users[..|users| - 1], i);
    }
  }

  /** There are no more holes than blocked consumers. */
  lemma {:induction false} OwnersFit(users: seq<Consumer>, table: seq<Hole>)
    requires OneEach(table) && Owned(users, table)
    ensures |table| <= CountBlocked(users)
    decreases |users|
  {
    var first := if table == [] then "" else table[0].owner;
    if users != [] {
      var k := |users| - 1;
      var rest := if users[k].state.Blocked? then DeleteOwned(table, users[k].name) else table;
      DeleteOneEach(table, users[k].name);
      DeleteExactly(table, users[k].name);
      forall j | 0 <= j < |rest|
        ensures OwnedByBlocked(users[..k], rest[j].owner)
      {
        OwnerIsEarlier(users, table, rest, j);
      }
      OwnersFit(users[..k], rest);
    }
  }

  lemma OwnerIsEarlier(users: seq<Consumer>, table: seq<Hole>, rest: seq<Hole>, j: nat)
    requires users != [] && Owned(users, table) && j < |rest| && rest[j] in table
    requires users[|users| - 1].state.Blocked? ==> rest[j].owner != users[|users| - 1].name
    ensures OwnedByBlocked(users[..|users| - 1], rest[j].owner)
  {
    var m :| 0 <= m < |table| && table[m] == rest[j];
    var i :| 0 <= i < |users| && Installed(users[i]) && users[i].name == table[m].owner && users[i].state.Blocked?;
    assert users[..|users| - 1][i] == users[i];
  }

  // ------------------------------------------------------------ steps keep the table

  /** A consumer that is not blocked owns no hole. */
  lemma OnlyBlockedOwn(n: nat, s: Shared, i: nat)
    requires TableOk(n, s) && UserOk(s, i) && !s.users[i].state.Blocked?
    ensures NotOwner(s.table, s.users[i].name)
  {
    forall k | 0 <= k < |s.table|
      ensures s.table[k].owner != s.users[i].name
    {
      var j :| 0 <= j < |s.users| && Installed(s.users[j]) && s.users[j].name == s.table[k].owner && s.users[j].state.Blocked?;
      assert i < j || j < i;
    }
  }

  lemma ReleaseKeeps(n: nat, s: Shared, user: nat)
    requires TableOk(n, s) && UserOk(s, user)
    ensures TableOk(n, Release(s, user)) && NotOwner(Release(s, user).table, s.users[user].name)
  {
    var name := s.users[user].name;
    DeleteKeeps(s.table, name);
    DeleteExactly(s.table, name);
    var r := DeleteOwned(s.table, name);
    forall k | 0 <= k < |r|
      ensures OwnedByBlocked(s.users, r[k].owner) && OnRing(n, r[k].span)
    {
      var j :| 0 <= j < |s.table| && s.table[j] == r[k];
    }
  }

  /** Changing a consumer that owns nothing. */
  lemma UpdateKeeps(n: nat, s: Shared, user: nat, c: Consumer)
    requires TableOk(n, s) && UserOk(s, user) && c.name == s.users[user].name
    requires NotOwner(s.table, c.name) || (s.users[user].state.Blocked? ==> c.state.Blocked?)
    ensures TableOk(n, Update(s, user, c))
  {
    var users := s.users[user := c];
    forall k | 0 <= k < |s.table|
      ensures OwnedByBlocked(users, s.table[k].owner)
    {
      var j :| 0 <= j < |s.users| && Installed(s.users[j]) && s.users[j].name == s.table[k].owner && s.users[j].state.Blocked?;
      assert Installed(users[j]) && users[j].name == s.table[k].owner && users[j].state.Blocked?;
    }
  }

  /** The hole of a consumer that holds frames always goes in: there is room in the table,
      and the consumer owns no other. */
  lemma HoleGoesIn(n: nat, s: Shared, i: nat, span: Span)
    requires TableOk(n, s) && UserOk(s, i) && s.users[i].state.Holding?
    ensures |s.table| < |s.users| && Insert(s.table, Hole(span, s.users[i].name)).Done?
  {
    OwnersFit(s.users, s.table);
    CountBelow(s.users, i);
    OnlyBlockedOwn(n, s, i);
    InsertKeeps(s.table, Hole(span, s.users[i].name));
  }

  lemma IsolateKeeps(n: nat, frames: seq<Frame>, s: Shared, i: nat, c: Consumer)
    requires FramesOk(n, frames) && UsersOk(n, frames, s.users)
    requires TableOk(n, s) && UserOk(s, i) && s.users[i].state.Holding?
    requires c.name == s.users[i].name && c.state.Blocked?
    ensures TableOk(n, Update(Isolate(n, frames, s, i), i, c))
  {
    var h := Hole(HeldSpan(n, frames, s.users[i]), c.name);
    OnlyBlockedOwn(n, s, i);
    InsertKeeps(s.table, h);
    var r, users := Insert(s.table, h).table, s.users[i := c];
    UpdateKeeps(n, s, i, c);
    forall k | 0 <= k < |r|
      ensures OwnedByBlocked(users, r[k].owner) && OnRing(n, r[k].span)
    {
      if r[k] == h {
        assert Installed(users[i]) && users[i].name == h.owner && users[i].state.Blocked?;
      } else {
        assert r[k] in s.table;
        var j :| 0 <= j < |s.table| && s.table[j] == r[k];
      }
    }
  }

  lemma OvertakeKeeps(n: nat, frames: seq<Frame>, s: Shared, i: nat, index: nat, wait: bool)
    requires FramesOk(n, frames) && UsersOk(n, frames, s.users)
    requires TableOk(n, s) && UserOk(s, i) && index < |frames|
    ensures TableOk(n, Overtake(n, frames, s, i, index, wait))
  {
    var c := Moved(s.users[i], index, frames[index].offset, wait);
    if s.users[i].state.Holding? {
      IsolateKeeps(n, frames, s, i, c.(moved := true, state := Blocked));
    } else {
      UpdateKeeps(n, s, i, if c.state.Free? then c else c.(moved := true, state := Blocked));
    }
  }

  lemma ResetUserKeeps(n: nat, frames: seq<Frame>, s: Shared, i: nat)
    requires FramesOk(n, frames) && UsersOk(n, frames, s.users) && TableOk(n, s) && i < |s.users|
    ensures TableOk(n, ResetUser(n, frames, s, i)) && UsersOk(n, frames, ResetUser(n, frames, s, i).users)
  {
    if Installed(s.users[i]) {
      var c := Moved(s.users[i], 0, 0, true);
      if s.users[i].state.Holding? {
        IsolateKeeps(n, frames, s, i, c.(moved := true, state := Blocked));
      } else {
        UpdateKeeps(n, s, i, if c.state.Free? then c else c.(moved := true, state := Blocked));
      }
    }
  }

  lemma {:induction false} ResetKeeps(n: nat, frames: seq<Frame>, s: Shared, i: nat)
    requires FramesOk(n, frames) && UsersOk(n, frames, s.users) && TableOk(n, s) && i <= |s.users|
    ensures TableOk(n, ResetFrom(n, frames, s, i)) && UsersOk(n, frames, ResetFrom(n, frames, s, i).users)
    decreases |s.users| - i
  {
    if i < |s.users| {
      ResetUserKeeps(n, frames, s, i);
      ResetKeeps(n, frames, ResetUser(n, frames, s, i), i + 1);
    }
  }

  /** Every call keeps the table in order. */
  lemma StepKeeps(n: nat, frames: seq<Frame>, s: Shared, op: Op)
    requires FramesOk(n, frames) && UsersOk(n, frames, s.users) && TableOk(n, s) && OpOk(n, frames, s, op)
    ensures TableOk(n, Step(n, frames, s, op)) && UsersOk(n, frames, Step(n, frames, s, op).users)
  {
    match op
    case MoveBlocker(user, index, wait) => OvertakeKeeps(n, frames, s, user, index, wait);
    case ResetAll => ResetKeeps(n, frames, s, 0);
    case RequestRead(user, first, last) =>
      ReleaseKeeps(n, s, user);
      UpdateKeeps(n, Release(s, user), user, Step(n, frames, s, op).users[user]);
    case RequestNothing(user) => ReleaseKeeps(n, s, user);
    case CommitRead(user, bytes) =>
      ReleaseKeeps(n, s, user);
      UpdateKeeps(n, Release(s, user), user, Step(n, frames, s, op).users[user]);
    case CommitNothing(user) => ReleaseKeeps(n, s, user);
    case Discard(user, index, offset) =>
      ReleaseKeeps(n, s, user);
      UpdateKeeps(n, Release(s, user), user, Step(n, frames, s, op).users[user]);
  }

  lemma StepKeepsCount(n: nat, frames: seq<Frame>, s: Shared, op: Op)
    requires FramesOk(n, frames) && UsersOk(n, frames, s.users) && OpOk(n, frames, s, op)
    ensures |Step(n, frames, s, op).users| == |s.users|
  {
    if op.ResetAll? {
      ResetKeepsCount(n, frames, s, 0);
    }
  }

  lemma {:induction false} ResetKeepsCount(n: nat, frames: seq<Frame>, s: Shared, i: nat)
    requires FramesOk(n, frames) && UsersOk(n, frames, s.users) && i <= |s.users|
    ensures |ResetFrom(n, frames, s, i).users| == |s.users|
    decreases |s.users| - i
  {
    if i < |s.users| {
      ResetKeepsCount(n, frames, ResetUser(n, frames, s, i), i + 1);
    }
  }

  /** The table as __RequestWritePtr uses it: spans on the ring, sorted by start. */
  function Spans(table: seq<Hole>): (hs: seq<Span>)
    ensures |hs| == |table| && forall i :: 0 <= i < |table| ==> hs[i] == table[i].span
  {
    seq(|table|, i requires 0 <= i < |table| => table[i].span)
  }

  lemma TableFeedsAllocator(n: nat, s: Shared)
    requires TableOk(n, s)
    ensures AllOnRing(n, Spans(s.table)) && SortedByStart(Spans(s.table))
  {
    var hs := Spans(s.table);
    forall i, j | 0 <= i < j < |hs|
      ensures hs[i].start <= hs[j].start
    {
      assert !Precedes(s.table[j].span, s.table[i].span);
    }
  }
}
