/** The intrusive circular lists of ikcp.h.  The class in Kcp.dfy keeps its four
    queues as sequences; here the pointer operations are shown to do to a ring of
    nodes what inserting and removing does to a sequence. */
module IQueue {
  import opened Serial
  import opened KcpTypes
  import opened KcpSpec
  import opened Endpoint

  /** The list node of a received segment, together with that segment. */
  class Node {
    const seg: RcvSeg
    var next: Node?
    var prev: Node?

    constructor (seg: RcvSeg)
      ensures next == null && prev == null && this.seg == seg
    {
      this.seg, next, prev := seg, null, null;
    }
  }

  function Succ(i: nat, n: nat): nat {
    if i + 1 < n then i + 1 else 0
  }

  function Pred(i: nat, n: nat): int {
    if i > 0 then i - 1 else n - 1
  }

  ghost predicate Distinct(q: seq<Node>) {
    forall i, j :: 0 <= i < j < |q| ==> q[i] != q[j]
  }

  /** Following next from q[0] visits q in order and comes back; prev goes the other way. */
  ghost predicate Ring(q: seq<Node>)
    reads q
  {
    && |q| > 0 && Distinct(q)
    && (forall i :: 0 <= i < |q| ==> q[i].next == q[Succ(i, |q|)])
    && (forall i :: 0 <= i < |q| ==> q[i].prev == q[Pred(i, |q|)])
  }

  /** IQUEUE_INIT */
  method Init(entry: Node)
    modifies entry
    ensures Ring([entry])
  {
    entry.next, entry.prev := entry, entry;
  }

  /** IQUEUE_IS_EMPTY */
  method IsEmpty(entry: Node, ghost q: seq<Node>) returns (empty: bool)
    requires Ring(q) && q[0] == entry
    ensures empty <==> q == [entry]
  {
    empty := entry == entry.next;
  }

  ghost function Inserted(q: seq<Node>, i: nat, node: Node): (r: seq<Node>)
    requires i <= |q|
    ensures |r| == |q| + 1
  {
    q[..i] + [node] + q[i..]
  }

  ghost function Removed(q: seq<Node>, i: nat): (r: seq<Node>)
    requires i < |q|
    ensures |r| == |q| - 1
  {
    q[..i] + q[i + 1..]
  }

  /** IQUEUE_ADD: node goes in right after the entry at, which need not be the head. */
  method Add(node: Node, at: Node, ghost q: seq<Node>, ghost i: nat)
    requires Ring(q) && i < |q| && q[i] == at && node !in q
    modifies q, node
    ensures Ring(Inserted(q, i + 1, node))
  {
    node.prev := at;
    node.next := at.next;
    at.next.prev := node;
    at.next := node;
    InsertedRing(q, i, node);
  }

  lemma InsertedAt(q: seq<Node>, i: nat, node: Node, k: nat)
    requires i <= |q| && k <= |q|
    ensures Inserted(q, i, node)[k] == if k < i then q[k] else if k == i then node else q[k - 1]
  {
  }

  lemma RemovedAt(q: seq<Node>, i: nat, k: nat)
    requires i < |q| && k < |q| - 1
    ensures Removed(q, i)[k] == if k < i then q[k] else q[k + 1]
  {
  }

  lemma InsertedDistinct(q: seq<Node>, i: nat, node: Node)
    requires i <= |q| && Distinct(q) && node !in q
    ensures Distinct(Inserted(q, i, node))
  {
    var r := Inserted(q, i, node);
    forall j, k | 0 <= j < k < |r|
      ensures r[j] != r[k]
    {
      InsertedAt(q, i, node, j);
      InsertedAt(q, i, node, k);
    }
  }

  lemma InsertedNext(q: seq<Node>, i: nat, node: Node, k: nat)
    requires i < |q| && k <= |q| && node.next == q[Succ(i, |q|)]
    requires k <= i ==> q[k].next == if k == i then node else q[k + 1]
    requires k > i + 1 ==> q[k - 1].next == q[Succ(k - 1, |q|)]
    ensures var r := Inserted(q, i + 1, node);
            r[k].next == r[Succ(k, |r|)]
  {
    hide Inserted;
    InsertedAt(q, i + 1, node, k);
    InsertedAt(q, i + 1, node, Succ(k, |q| + 1));
  }

  lemma InsertedPrev(q: seq<Node>, i: nat, node: Node, k: nat)
    requires i < |q| && k <= |q| && node.prev == q[i]
    requires k <= i ==> q[k].prev == if k == Succ(i, |q|) then node else q[Pred(k, |q|)]
    requires k > i + 1 ==> q[k - 1].prev == if k - 1 == Succ(i, |q|) then node else q[k - 2]
    ensures var r := Inserted(q, i + 1, node);
            r[k].prev == r[Pred(k, |r|)]
  {
    hide Inserted;
    InsertedAt(q, i + 1, node, k);
    InsertedAt(q, i + 1, node, Pred(k, |q| + 1));
  }

  /** The links that inserting leaves behind make up the longer ring. */
  lemma InsertedRing(q: seq<Node>, i: nat, node: Node)
    requires i < |q| && Distinct(q) && node !in q
    requires forall k :: 0 <= k < |q| ==> q[k].next == if k == i then node else q[Succ(k, |q|)]
    requires forall k :: 0 <= k < |q| ==> q[k].prev == if k == Succ(i, |q|) then node else q[Pred(k, |q|)]
    requires node.next == q[Succ(i, |q|)] && node.prev == q[i]
    ensures Ring(Inserted(q, i + 1, node))
  {
    InsertedDistinct(q, i + 1, node);
    hide Inserted, Distinct;
    var r := Inserted(q, i + 1, node);
    forall k | 0 <= k < |r|
      ensures r[k].next == r[Succ(k, |r|)] && r[k].prev == r[Pred(k, |r|)]
    {
      InsertedNext(q, i, node, k);
      InsertedPrev(q, i, node, k);
    }
  }

  /** The links that removing leaves behind make up the shorter ring. */
  lemma RemovedRing(q: seq<Node>, i: nat)
    requires 0 < i < |q| && Distinct(q)
    requires forall k :: 0 <= k < |q| && k != i ==> q[k].next == q[if k == i - 1 then Succ(i, |q|) else Succ(k, |q|)]
    requires forall k :: 0 <= k < |q| && k != i ==> q[k].prev == q[if k == Succ(i, |q|) then i - 1 else Pred(k, |q|)]
    ensures Ring(Removed(q, i)) && q[i] !in Removed(q, i)
  {
    var n := |q|;
    var r := Removed(q, i);
    forall k | 0 <= k < n - 1
      ensures r[k].next == r[Succ(k, n - 1)] && r[k].prev == r[Pred(k, n - 1)] && r[k] != q[i]
    {
      RemovedAt(q, i, k);
      RemovedAt(q, i, Succ(k, n - 1));
      RemovedAt(q, i, Pred(k, n - 1));
    }
  }

  /** IQUEUE_ADD_TAIL: node goes in right before the head, at the end of the ring. */
  method AddTail(node: Node, head: Node, ghost q: seq<Node>)
    requires Ring(q) && q[0] == head && node !in q
    modifies q, node
    ensures Ring(q + [node])
  {
    node.prev := head.prev;
    node.next := head;
    head.prev.next := node;
    head.prev := node;
  }

  /** IQUEUE_DEL: any entry but the head is taken out, the others keep their order. */
  method Del(entry: Node, ghost q: seq<Node>, ghost i: nat)
    requires Ring(q) && 0 < i < |q| && q[i] == entry
    modifies q
    ensures Ring(Removed(q, i)) && entry !in Removed(q, i)
    ensures entry.next == null && entry.prev == null
  {
    entry.next.prev := entry.prev;
    entry.prev.next := entry.next;
    entry.next := null;
    entry.prev := null;
    RemovedRing(q, i);
  }

  /** IQUEUE_DEL_INIT: as Del, and the entry becomes an empty ring of its own. */
  method DelInit(entry: Node, ghost q: seq<Node>, ghost i: nat)
    requires Ring(q) && 0 < i < |q| && q[i] == entry
    modifies q
    ensures Ring(Removed(q, i)) && entry !in Removed(q, i) && Ring([entry])
  {
    Del(entry, q, i);
    Init(entry);
  }

  // ------------------------------------------------ the insertion in ikcp_parse_data

  /** The segments of the ring after its head. */
  ghost function Segs(q: seq<Node>): (s: seq<RcvSeg>)
    requires |q| > 0
    ensures |s| == |q| - 1
    ensures forall k :: 0 <= k < |s| ==> s[k] == q[k + 1].seg
  {
    seq(|q| - 1, k requires 0 <= k < |q| - 1 => q[k + 1].seg)
  }

  lemma SegsInserted(q: seq<Node>, i: nat, node: Node)
    requires i < |q|
    ensures Segs(Inserted(q, i + 1, node)) == Segs(q)[..i] + [node.seg] + Segs(q)[i..]
  {
  }

  /** The scan from the tail of rcv_buf for the place of a new segment; repeated: a
      segment with its number is already there, and the list is left alone. */
  method InsertByNumber(node: Node, head: Node, ghost q: seq<Node>) returns (repeated: bool, ghost r: seq<Node>)
    requires Ring(q) && q[0] == head && node !in q
    modifies q, node
    ensures Ring(r) && r[0] == head && Segs(r) == Insert(Wrapping, Segs(q), node.seg)
    ensures repeated <==> r == q
    ensures repeated <==> node !in r
  {
    var p := head.prev;
    ghost var i, buf := |q| - 1, Segs(q);
    assert buf[..i] == buf && buf[i..] == [];
    while p != head
      invariant 0 <= i < |q| && p == q[i] && Ring(q)
      invariant Insert(Wrapping, buf, node.seg) == Insert(Wrapping, buf[..i], node.seg) + buf[i..]
      decreases i
    {
      if p.seg.sn == node.seg.sn {
        InsertSame(buf, i, node.seg);
        return true, q;
      }
      if TimeDiff(node.seg.sn, p.seg.sn) > 0 {
        break;
      }
      InsertBefore(buf, i, node.seg);
      p, i := p.prev, i - 1;
    }
    InsertHere(buf, i, node.seg);
    SegsInserted(q, i, node);
    Add(node, p, q, i);
    repeated, r := false, Inserted(q, i + 1, node);
  }
}
