/** The pickable queue (src/picq.c): an intrusive doubly linked list whose nodes may be taken
    out at any position.  Its links always represent one sequence of distinct nodes, and
    each operation is the obvious operation on that sequence. */
module PickableQueue {
  import opened Queues

  class Node {
    var p: Node?
    var n: Node?
    constructor ()
      ensures p == null && n == null
    {
      p, n := null, null;
    }
  }

  /** Neighbours of position i in a sequence of nodes. */
  ghost function Before(q: seq<Node>, i: nat): Node?
    requires i < |q|
  {
    if i == 0 then null else q[i - 1]
  }

  ghost function After(q: seq<Node>, i: nat): Node?
    requires i < |q|
  {
    if i == |q| - 1 then null else q[i + 1]
  }

  /** Position of a node in a sequence that holds it. */
  lemma {:induction false} WithoutAt(q: seq<Node>, i: nat)
    requires Distinct(q) && i < |q|
    ensures Without(q, q[i]) == q[..i] + q[i + 1..]
  {
    if i == 0 {
      assert q[..0] + q[1..] == q[1..];
    } else {
      WithoutAt(q[1..], i - 1);
      assert q[1..][..i - 1] == q[1..i];
      assert [q[0]] + (q[1..i] + q[i + 1..]) == q[..i] + q[i + 1..];
      assert q[1..][i - 1] == q[i];
    }
  }

  class PicQ {
    var tail: Node?
    var head: Node?
    /** Queue contents from tail to head. */
    ghost var nodes: seq<Node>
    /** What EnQ put in and DeQ took out, and whether only these two have been used. */
    ghost var put: seq<Node>
    ghost var taken: seq<Node>
    ghost var plain: bool

    ghost predicate Linked(q: seq<Node>)
      reads q
    {
      forall i :: 0 <= i < |q| ==> q[i].p == Before(q, i) && q[i].n == After(q, i)
    }

    /** The links represent the contents. */
    ghost predicate Shaped()
      reads this`nodes, this`tail, this`head, nodes
    {
      && Distinct(nodes)
      && Linked(nodes)
      && tail == (if nodes == [] then null else nodes[0])
      && head == (if nodes == [] then null else nodes[|nodes| - 1])
    }

    /** First in, first out: what was put in is what was taken out, then what is there. */
    ghost predicate Valid()
      reads this, nodes
    {
      Shaped() && (plain ==> put == taken + nodes)
    }

    constructor ()
      ensures Valid() && nodes == [] && plain && put == [] && taken == []
    {
      tail, head, nodes := null, null, [];
      put, taken, plain := [], [], true;
    }

    /** Rewire the neighbours of position i around it. */
    method Unlink(x: Node, ghost q: seq<Node>, ghost i: nat)
      requires Distinct(q) && Linked(q) && i < |q| && x == q[i]
      requires tail == q[0] && head == q[|q| - 1]
      modifies this`tail, this`head, q
      ensures x.p == null && x.n == null
      ensures Bypassed(q, i)
      ensures tail == (if i == 0 then After(q, i) else q[0])
      ensures head == (if i == |q| - 1 then Before(q, i) else q[|q| - 1])
    {
      hide Distinct, Bypassed;
      assert x.p == Before(q, i) && x.n == After(q, i);
      Separate(q, i, i);
      if x.p != null {
        x.p.n := x.n;
      } else {
        tail := x.n;
      }
      if x.n != null {
        x.n.p := x.p;
      } else {
        head := x.p;
      }
      x.n := null;
      x.p := null;
      forall j | 0 <= j < |q| && j != i
        ensures q[j].p == (if j == i + 1 then Before(q, i) else Before(q, j))
        ensures q[j].n == (if j == i - 1 then After(q, i) else After(q, j))
      {
        Separate(q, i, j);
        assert old(q[j].p) == Before(q, j) && old(q[j].n) == After(q, j);
      }
      BypassedBy(q, i);
    }

    /** Take a node out of the queue.  A node that is in no queue is left alone. */
    method Pick(x: Node)
      requires Valid()
      requires x in nodes || (x.p == null && x.n == null)
      modifies this, nodes
      ensures Valid() && nodes == Without(old(nodes), x) && !plain
      ensures x.p == null && x.n == null
      ensures put == old(put) && taken == old(taken)
    {
      hide Shaped, Without;
      Extract(x);
      plain := false;
    }

    method Extract(x: Node)
      requires Shaped()
      requires x in nodes || (x.p == null && x.n == null)
      modifies this`nodes, this`tail, this`head, nodes
      ensures Shaped() && nodes == Without(old(nodes), x)
      ensures x.p == null && x.n == null
    {
      hide Before, After, Bypassed, Linked, Without, Distinct;
      QueuedOrNot(this, x);
      if x.n == null && x.p == null && !(x == head && x == tail) {
        return;
      }
      ghost var q := nodes;
      ghost var i :| 0 <= i < |q| && q[i] == x;
      WithoutAt(q, i);
      Unlink(x, q, i);
      nodes := q[..i] + q[i + 1..];
      Relinked(this, q, i);
    }

    /** Add a node at the head. */
    method EnQ(x: Node)
      requires Valid() && x !in nodes
      requires x.p == null && x.n == null
      modifies this, nodes, x
      ensures Valid() && nodes == old(nodes) + [x]
      ensures plain == old(plain) && put == old(put) + [x] && taken == old(taken)
    {
      hide Shaped;
      LinkAtHead(x);
      put := put + [x];
    }

    method LinkAtHead(x: Node)
      requires Shaped() && x !in nodes
      requires x.p == null && x.n == null
      modifies this`nodes, this`tail, this`head, nodes, x
      ensures Shaped() && nodes == old(nodes) + [x]
    {
      ghost var q := nodes;
      hide Distinct;
      LastIsAlone(q, x);
      if head != null {
        head.n := x;
      } else {
        tail := x;
      }
      x.p := head;
      head := x;
      nodes := q + [x];
      forall j | 0 <= j < |nodes|
        ensures nodes[j].p == Before(nodes, j) && nodes[j].n == After(nodes, j)
      {
        NeighboursBelow(q, x, j);
        if j < |q| {
          hide Before, After;
          assert nodes[j] == q[j] && (j < |q| - 1 ==> q[j] != q[|q| - 1]);
          assert old(q[j].p) == Before(q, j) && old(q[j].n) == After(q, j);
        }
      }
    }

    /** Add a node at the tail. */
    method Unshift(x: Node)
      requires Valid() && x !in nodes
      requires x.p == null && x.n == null
      modifies this, nodes, x
      ensures Valid() && nodes == [x] + old(nodes) && !plain
      ensures put == old(put) && taken == old(taken)
    {
      hide Shaped;
      LinkAtTail(x);
      plain := false;
    }

    method LinkAtTail(x: Node)
      requires Shaped() && x !in nodes
      requires x.p == null && x.n == null
      modifies this`nodes, this`tail, this`head, nodes, x
      ensures Shaped() && nodes == [x] + old(nodes)
    {
      ghost var q := nodes;
      hide Distinct;
      LastIsAlone(q, x);
      if tail != null {
        tail.p := x;
      } else {
        head := x;
      }
      x.n := tail;
      tail := x;
      nodes := [x] + q;
      forall j | 0 <= j < |nodes|
        ensures nodes[j].p == Before(nodes, j) && nodes[j].n == After(nodes, j)
      {
        NeighboursAbove(q, x, j);
        if j > 0 {
          hide Before, After;
          assert nodes[j] == q[j - 1] && (j > 1 ==> q[j - 1] != q[0]);
          assert old(q[j - 1].p) == Before(q, j - 1) && old(q[j - 1].n) == After(q, j - 1);
        }
      }
    }

    /** Take the node at the head. */
    method Shift() returns (x: Node?)
      requires Valid()
      modifies this, nodes
      ensures Valid()
      ensures x == null <==> old(nodes) == []
      ensures x == null ==> nodes == []
      ensures x != null ==> old(nodes) == nodes + [x] && x.p == null && x.n == null && !plain
      ensures put == old(put) && taken == old(taken)
    {
      hide Linked, Without, Distinct;
      x := head;
      if head != null {
        ghost var q := nodes;
        WithoutAt(q, |q| - 1);
        Extract(head);
        plain := false;
        assert q[|q|..] == [] && q == q[..|q| - 1] + [x];
      }
    }

    /** Take the node at the tail. */
    method DeQ() returns (x: Node?)
      requires Valid()
      modifies this, nodes
      ensures Valid() && plain == old(plain) && put == old(put)
      ensures x == null <==> old(nodes) == []
      ensures x == null ==> nodes == [] && taken == old(taken)
      ensures x != null ==> old(nodes) == [x] + nodes && x.p == null && x.n == null && taken == old(taken) + [x]
    {
      hide Linked, Without, Distinct;
      x := tail;
      if tail != null {
        ghost var q := nodes;
        WithoutAt(q, 0);
        Extract(tail);
        taken := taken + [x];
        assert q == [x] + q[1..];
      }
    }
  }

  /** A node outside a sequence keeps it distinct at either end, and the end nodes occur once. */
  lemma LastIsAlone(q: seq<Node>, x: Node)
    requires Distinct(q) && x !in q
    ensures Distinct(q + [x]) && Distinct([x] + q)
    ensures forall j :: 0 <= j < |q| - 1 ==> q[j] != q[|q| - 1]
    ensures forall j :: 1 <= j < |q| ==> q[j] != q[0]
  {
  }

  /** Neighbours in a sequence with one more node at the tail. */
  lemma NeighboursAbove(q: seq<Node>, x: Node, j: nat)
    requires j <= |q|
    ensures
      var r := [x] + q;
      && (j == 0 ==> Before(r, j) == null && After(r, j) == (if q == [] then null else q[0]))
      && (j > 0 ==> r[j] == q[j - 1] && After(r, j) == After(q, j - 1))
      && (j > 0 ==> Before(r, j) == if j == 1 then x else Before(q, j - 1))
  {
  }

  /** Neighbours in a sequence with one more node at the head. */
  lemma NeighboursBelow(q: seq<Node>, x: Node, j: nat)
    requires j <= |q|
    ensures
      var r := q + [x];
      && (j == |q| ==> After(r, j) == null && Before(r, j) == (if q == [] then null else q[|q| - 1]))
      && (j < |q| ==> r[j] == q[j] && Before(r, j) == Before(q, j))
      && (j < |q| ==> After(r, j) == if j == |q| - 1 then x else After(q, j))
  {
  }

  lemma MovedApart(a: seq<Node>, b: seq<Node>, x: Node)
    requires Apart(a, b) && Distinct(a) && x !in b
    ensures Apart(b, Without(a, x)) && Apart(Without(a, x), b + [x]) && x !in Without(a, x)
    ensures forall y :: y in a ==> y !in b
    ensures forall y :: y in Without(a, x) ==> y in a && y != x
  {
    WithoutDistinct(a, x);
  }

  lemma DistinctNodes(q: PicQ)
    requires q.Valid()
    ensures Distinct(q.nodes)
  {
  }

  /** No node is in both sequences. */
  ghost predicate Apart(a: seq<Node>, b: seq<Node>) {
    forall y :: y in a ==> y !in b
  }

  twostate lemma StillValid(q: PicQ)
    requires old(q.Valid()) && unchanged(q) && forall i :: 0 <= i < |q.nodes| ==> unchanged(q.nodes[i])
    ensures q.Valid()
  {
    hide Distinct, Before, After;
  }

  /** Taking a node out of one queue leaves another queue alone. */
  method PickBeside(q: PicQ, other: PicQ, x: Node)
    requires q != other && q.Valid() && other.Valid() && Apart(q.nodes, other.nodes)
    requires x in q.nodes || (x.p == null && x.n == null)
    modifies q, q.nodes
    ensures q.Valid() && other.Valid() && other.nodes == old(other.nodes)
    ensures q.nodes == Without(old(q.nodes), x) && x.p == null && x.n == null
  {
    label before:
    hide PicQ.Valid, Without;
    q.Pick(x);
    forall i | 0 <= i < |other.nodes|
      ensures unchanged@before(other.nodes[i])
    {
      assert other.nodes[i] in other.nodes;
    }
    StillValid@before(other);
  }

  /** Adding a node to one queue leaves another queue alone. */
  method EnQBeside(q: PicQ, other: PicQ, x: Node)
    requires q != other && q.Valid() && other.Valid() && Apart(q.nodes, other.nodes)
    requires x !in q.nodes && x !in other.nodes && x.p == null && x.n == null
    modifies q, q.nodes, x
    ensures q.Valid() && other.Valid() && other.nodes == old(other.nodes)
    ensures q.nodes == old(q.nodes) + [x]
  {
    label before:
    hide PicQ.Valid;
    q.EnQ(x);
    forall i | 0 <= i < |other.nodes|
      ensures unchanged@before(other.nodes[i])
    {
      assert other.nodes[i] in other.nodes;
    }
    StillValid@before(other);
  }

  /** What yfFlowClose does with its two queues: take the node out of one, if it is there, and put
      it at the head of the other. A node closed by its first packet was never queued. */
  method Move(from: PicQ, to: PicQ, x: Node)
    requires from != to && from.Valid() && to.Valid()
    requires Apart(from.nodes, to.nodes)
    requires x !in to.nodes && (x in from.nodes || (x.p == null && x.n == null))
    modifies from, to, from.nodes, to.nodes, x
    ensures from.Valid() && to.Valid()
    ensures Apart(from.nodes, to.nodes)
    ensures from.nodes == Without(old(from.nodes), x) && to.nodes == old(to.nodes) + [x]
  {
    DistinctNodes(from);
    hide PicQ.Valid, Without, Apart, Distinct;
    MovedApart(from.nodes, to.nodes, x);
    PickBeside(from, to, x);
    EnQBeside(to, from, x);
  }

  /** A node is a neighbour of position i only from the next position. */
  lemma Separate(q: seq<Node>, i: nat, j: nat)
    requires Distinct(q) && i < |q| && j < |q|
    ensures q[j] == q[i] <==> j == i
    ensures q[j] == Before(q, i) <==> j == i - 1
    ensures q[j] == After(q, i) <==> j == i + 1
  {
  }

  /** Links of a queue whose position i has been bypassed. */
  ghost predicate Bypassed(q: seq<Node>, i: nat)
    requires i < |q|
    reads q
  {
    forall j :: 0 <= j < |q| && j != i ==>
      && q[j].p == (if j == i + 1 then Before(q, i) else Before(q, j))
      && q[j].n == (if j == i - 1 then After(q, i) else After(q, j))
  }

  lemma BypassedBy(q: seq<Node>, i: nat)
    requires i < |q|
    requires forall j :: 0 <= j < |q| && j != i ==>
      && q[j].p == (if j == i + 1 then Before(q, i) else Before(q, j))
      && q[j].n == (if j == i - 1 then After(q, i) else After(q, j))
    ensures Bypassed(q, i)
  {
  }

  /** A node without links is in a valid queue only if it is its only node. */
  lemma QueuedOrNot(s: PicQ, x: Node)
    requires s.Shaped() && (x in s.nodes || (x.p == null && x.n == null))
    ensures x in s.nodes <==> !(x.n == null && x.p == null && !(x == s.head && x == s.tail))
    ensures x !in s.nodes ==> Without(s.nodes, x) == s.nodes
  {
    if x in s.nodes {
      var i :| 0 <= i < |s.nodes| && s.nodes[i] == x;
      assert s.nodes[i].p == Before(s.nodes, i) && s.nodes[i].n == After(s.nodes, i);
    }
  }

  lemma Relinked(s: PicQ, q: seq<Node>, i: nat)
    requires Distinct(q) && i < |q| && s.nodes == q[..i] + q[i + 1..] && Bypassed(q, i)
    requires s.tail == (if i == 0 then After(q, i) else q[0])
    requires s.head == (if i == |q| - 1 then Before(q, i) else q[|q| - 1])
    ensures s.Shaped()
  {
    var r := s.nodes;
    assert Distinct(r);
    hide Distinct;
    assert r != [] ==> r[0] == if i == 0 then q[1] else q[0];
    assert r != [] ==> r[|r| - 1] == if i == |q| - 1 then q[i - 1] else q[|q| - 1];
    hide Before, After;
    forall j | 0 <= j < |r|
      ensures r[j].p == Before(r, j) && r[j].n == After(r, j)
    {
      NeighboursAfterPick(q, i, j);
    }
  }

  lemma NeighboursAfterPick(q: seq<Node>, i: nat, j: nat)
    requires i < |q| && j < |q| - 1
    ensures
      var r := q[..i] + q[i + 1..];
      var m := if j < i then j else j + 1;
      && r[j] == q[m]
      && Before(r, j) == (if m == i + 1 then Before(q, i) else Before(q, m))
      && After(r, j) == (if m == i - 1 then After(q, i) else After(q, m))
  {
  }
}
