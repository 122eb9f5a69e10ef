/** Queue contents as sequences from tail to head: what the pickable queue operations mean. */
module Queues {

  ghost predicate Distinct<T>(q: seq<T>) {
    forall i, j :: 0 <= i < j < |q| ==> q[i] != q[j]
  }

  /** Queue contents without one node; a node that is not queued leaves them alone. */
  function Without<T(==)>(q: seq<T>, x: T): (r: seq<T>)
    ensures x !in q ==> r == q
    ensures forall y :: y in r ==> y in q
  {
    if q == [] then []
    else if q[0] == x then q[1..]
    else [q[0]] + Without(q[1..], x)
  }

  lemma {:induction false} WithoutDistinct<T>(q: seq<T>, x: T)
    requires Distinct(q)
    ensures Distinct(Without(q, x))
    ensures forall y :: y in Without(q, x) <==> y in q && y != x
    ensures |Without(q, x)| == if x in q then |q| - 1 else |q|
  {
    if q != [] {
      var rest := q[1..];
      WithoutDistinct(rest, x);
      assert q == [q[0]] + rest;
      assert q[0] !in rest;
      if q[0] != x {
        assert q[0] !in Without(rest, x);
      }
    }
  }

  /** Every two nodes, taken from tail to head, are related. */
  ghost predicate Pairwise<T(!new)>(q: seq<T>, rel: (T, T) -> bool) {
    forall i, j :: 0 <= i <= j < |q| ==> rel(q[i], q[j])
  }

  /** Taking a node out keeps the order of the others. */
  lemma {:induction false} WithoutPairwise<T(!new)>(q: seq<T>, x: T, rel: (T, T) -> bool)
    requires Pairwise(q, rel)
    ensures Pairwise(Without(q, x), rel)
  {
    if q != [] {
      var rest := q[1..];
      assert Pairwise(rest, rel) by {
        assert forall i :: 0 <= i < |rest| ==> rest[i] == q[i + 1];
      }
      WithoutPairwise(rest, x, rel);
      if q[0] != x {
        forall y | y in Without(rest, x)
          ensures rel(q[0], y)
        {
          var j :| 0 <= j < |rest| && rest[j] == y;
          assert q[j + 1] == y;
        }
      }
    }
  }

  /** Distinct nodes are no more than the set they come from. */
  lemma {:induction false} DistinctBound<T>(q: seq<T>, x: set<T>)
    requires Distinct(q) && forall k :: k in q ==> k in x
    ensures |q| <= |x|
  {
    if q != [] {
      var r := q[1..];
      forall k | k in r
        ensures k in x - {q[0]}
      {
        var i :| 0 <= i < |r| && r[i] == k;
        assert q[i + 1] == k;
      }
      DistinctBound(r, x - {q[0]});
    }
  }
}
