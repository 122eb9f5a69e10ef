/** Completion of a fragmented datagram (src/yafrag.c, section 3.2 of RFC 791): sort the
    fragment records by offset and walk them.  The walk is sound for any fragments, and
    for the tiles of one datagram it succeeds exactly when no tile is missing. */
module FragSpec {

  datatype Option<T> = None | Some(value: T)

  /** A fragment's offset and length in the payload. */
  datatype FragRec = FragRec(off: nat, len: nat)

  ghost predicate SortedByOffset(rs: seq<FragRec>) {
    forall i, j :: 0 <= i <= j < |rs| ==> rs[i].off <= rs[j].off
  }

  /** What is known of the library sort: some permutation in offset order. */
  ghost predicate IsSort(rs: seq<FragRec>, sorted: seq<FragRec>) {
    multiset(sorted) == multiset(rs) && SortedByOffset(sorted)
  }

  /** The traversal: None at a gap, otherwise the end of the last record. */
  function Walk(rs: seq<FragRec>, next: nat): Option<nat> {
    if rs == [] then Some(next)
    else if rs[0].off <= next then Walk(rs[1..], rs[0].off + rs[0].len)
    else None
  }

  ghost predicate Covers(rs: seq<FragRec>, x: nat) {
    exists i :: 0 <= i < |rs| && rs[i].off <= x < rs[i].off + rs[i].len
  }

  /** Soundness for arbitrary, overlapping fragments: every octet below the end the walk
      reports is covered. */
  lemma {:induction false} WalkSound(rs: seq<FragRec>, next: nat, x: nat)
    requires Walk(rs, next).Some? && next <= x < Walk(rs, next).value
    ensures Covers(rs, x)
  {
    if rs != [] {
      var e := rs[0].off + rs[0].len;
      if x < e {
        assert rs[0].off <= x < rs[0].off + rs[0].len;
      } else {
        WalkSound(rs[1..], e, x);
        var i :| 0 <= i < |rs[1..]| && rs[1..][i].off <= x < rs[1..][i].off + rs[1..][i].len;
        assert rs[i + 1] == rs[1..][i];
      }
    }
  }

  lemma {:induction false} WalkEndsAtLast(rs: seq<FragRec>, next: nat)
    requires rs != [] && Walk(rs, next).Some?
    ensures Walk(rs, next).value == End(rs[|rs| - 1])
  {
    if |rs| > 1 {
      WalkEndsAtLast(rs[1..], End(rs[0]));
    }
  }

  // ---- how far the reported end reaches ----

  /** No record starts above r. */
  ghost predicate StartsLast(rs: seq<FragRec>, r: FragRec) {
    forall j :: 0 <= j < |rs| ==> rs[j].off <= r.off
  }

  /** No record ends above e. */
  ghost predicate Reaches(rs: seq<FragRec>, e: nat) {
    forall j :: 0 <= j < |rs| ==> End(rs[j]) <= e
  }

  lemma {:induction false} WalkAppend(x: seq<FragRec>, y: seq<FragRec>, next: nat)
    ensures Walk(x + y, next) == if Walk(x, next).None? then None else Walk(y, Walk(x, next).value)
  {
    if x == [] {
      assert x + y == y;
    } else {
      assert (x + y)[1..] == x[1..] + y;
      WalkAppend(x[1..], y, End(x[0]));
    }
  }

  lemma {:induction false} WalkLevel(rs: seq<FragRec>, off: nat, next: nat)
    requires off <= next && forall j :: 0 <= j < |rs| ==> rs[j].off == off
    ensures Walk(rs, next).Some?
  {
    if rs != [] {
      WalkLevel(rs[1..], off, End(rs[0]));
    }
  }

  /** The sorted records with record m moved to the end. */
  function Moved(sorted: seq<FragRec>, m: nat): (r: seq<FragRec>)
    requires m < |sorted|
    ensures |r| == |sorted|
  {
    sorted[..m] + (sorted[m + 1..] + [sorted[m]])
  }

  lemma StartsLastInSort(rs: seq<FragRec>, sorted: seq<FragRec>, r: FragRec)
    requires IsSort(rs, sorted) && StartsLast(rs, r)
    ensures StartsLast(sorted, r)
  {
    SameMembers(rs, sorted);
    forall j | 0 <= j < |sorted|
      ensures sorted[j].off <= r.off
    {
      assert sorted[j] in rs;
    }
  }

  lemma MovedIsSort(rs: seq<FragRec>, sorted: seq<FragRec>, m: nat)
    requires IsSort(rs, sorted) && m < |sorted| && StartsLast(sorted, sorted[m])
    ensures IsSort(rs, Moved(sorted, m))
  {
    var moved := Moved(sorted, m);
    MovedIsPermutation(sorted, m);
    forall j | 0 <= j < |sorted|
      ensures moved[j].off == sorted[j].off
    {
      assert j > m ==> sorted[j].off == sorted[m].off;
      assert j < m ==> moved[j] == sorted[j];
      assert m <= j < |sorted| - 1 ==> moved[j] == sorted[j + 1];
    }
  }

  lemma MovedIsPermutation(sorted: seq<FragRec>, m: nat)
    requires m < |sorted|
    ensures multiset(Moved(sorted, m)) == multiset(sorted)
  {
    SplitAt(sorted, m);
  }

  lemma WalkReaches(x: seq<FragRec>, r: FragRec, z: seq<FragRec>)
    requires Walk(x + ([r] + z), 0).Some?
    ensures Walk(x, 0).Some? && r.off <= Walk(x, 0).value
  {
    WalkAppend(x, [r] + z, 0);
    assert ([r] + z)[0] == r;
  }

  lemma WalkSwapped(x: seq<FragRec>, r: FragRec, z: seq<FragRec>)
    requires Walk(x + ([r] + z), 0).Some? && forall j :: 0 <= j < |z| ==> z[j].off == r.off
    ensures Walk(x + (z + [r]), 0) == Some(End(r))
  {
    WalkReaches(x, r, z);
    WalkAppend(x, z + [r], 0);
    WalkLevel(z + [r], r.off, Walk(x, 0).value);
    hide Walk;
    WalkEndsAtLast(z + [r], Walk(x, 0).value);
  }

  /** Records after one that starts last start with it. */
  lemma LevelTail(sorted: seq<FragRec>, m: nat, j: nat)
    requires SortedByOffset(sorted) && m < |sorted| && StartsLast(sorted, sorted[m]) && j < |sorted| - m - 1
    ensures sorted[m + 1..][j].off == sorted[m].off
  {
    assert sorted[m + 1..][j] == sorted[m + 1 + j];
  }

  lemma SplitAt(sorted: seq<FragRec>, m: nat)
    requires m < |sorted|
    ensures sorted == sorted[..m] + ([sorted[m]] + sorted[m + 1..])
  {
  }

  lemma MovedWalks(sorted: seq<FragRec>, m: nat)
    requires SortedByOffset(sorted) && m < |sorted| && StartsLast(sorted, sorted[m]) && Walk(sorted, 0).Some?
    ensures Walk(Moved(sorted, m), 0) == Some(End(sorted[m]))
  {
    hide Walk, SortedByOffset, StartsLast;
    var z := sorted[m + 1..];
    forall j | 0 <= j < |z|
      ensures z[j].off == sorted[m].off
    {
      LevelTail(sorted, m, j);
    }
    SplitAt(sorted, m);
    WalkSwapped(sorted[..m], sorted[m], z);
  }

  /** The end of a successful walk over any sort reaches the furthest octet that arrived if and
      only if every record that starts last also ends last. */
  lemma ReachesFurthest(rs: seq<FragRec>, sorted: seq<FragRec>)
    requires rs != [] && IsSort(rs, sorted) && Walk(sorted, 0).Some?
    ensures (forall s :: IsSort(rs, s) && Walk(s, 0).Some? ==> Reaches(rs, Walk(s, 0).value))
       <==> (forall i :: 0 <= i < |rs| && StartsLast(rs, rs[i]) ==> Reaches(rs, End(rs[i])))
  {
    if forall i :: 0 <= i < |rs| && StartsLast(rs, rs[i]) ==> Reaches(rs, End(rs[i])) {
      forall s | IsSort(rs, s) && Walk(s, 0).Some?
        ensures Reaches(rs, Walk(s, 0).value)
      {
        LastStartsLast(rs, s);
        WalkEndsAtLast(s, 0);
      }
    } else {
      var i :| 0 <= i < |rs| && StartsLast(rs, rs[i]) && !Reaches(rs, End(rs[i]));
      SameMembers(rs, sorted);
      assert rs[i] in sorted;
      var m :| 0 <= m < |sorted| && sorted[m] == rs[i];
      StartsLastInSort(rs, sorted, rs[i]);
      MovedIsSort(rs, sorted, m);
      MovedWalks(sorted, m);
      hide Moved, IsSort, Reaches;
      assert IsSort(rs, Moved(sorted, m)) && !Reaches(rs, Walk(Moved(sorted, m), 0).value);
    }
  }

  lemma LastStartsLast(rs: seq<FragRec>, s: seq<FragRec>)
    requires rs != [] && IsSort(rs, s)
    ensures s != [] && exists i :: 0 <= i < |rs| && rs[i] == s[|s| - 1] && StartsLast(rs, rs[i])
  {
    SameMembers(rs, s);
    assert rs[0] in s;
    var last := s[|s| - 1];
    assert last in rs;
    forall j | 0 <= j < |rs|
      ensures rs[j].off <= last.off
    {
      assert rs[j] in s;
    }
    var i :| 0 <= i < |rs| && rs[i] == last;
  }

  /** Octet 50 has arrived, yet the datagram is taken to end at octet 20. */
  lemma OverlapFallsShort()
    ensures
      var rs := [FragRec(0, 100), FragRec(10, 10)];
      SortedByOffset(rs) && Covers(rs, 50) && Walk(rs, 0) == Some(20)
  {
    var rs := [FragRec(0, 100), FragRec(10, 10)];
    assert rs[0].off <= 50 < rs[0].off + rs[0].len;
    assert rs[1..] == [FragRec(10, 10)];
    assert Walk(rs[1..], 100) == Walk(rs[1..][1..], 20);
  }

  // ---- tiles ----

  function End(t: FragRec): nat {
    t.off + t.len
  }

  /** A cut of a payload into consecutive non-empty pieces. */
  ghost predicate Tiling(ts: seq<FragRec>) {
    && ts != [] && ts[0].off == 0
    && (forall i :: 0 <= i < |ts| ==> ts[i].len > 0)
    && (forall i :: 0 < i < |ts| ==> ts[i].off == End(ts[i - 1]))
  }

  lemma {:induction false} TilesAscend(ts: seq<FragRec>, i: nat, j: nat)
    requires Tiling(ts) && i < j < |ts|
    ensures End(ts[i]) <= ts[j].off && ts[i].off < ts[j].off
  {
    if j > i + 1 {
      TilesAscend(ts, i, j - 1);
    }
  }

  /** Every record is a tile numbered j or higher. */
  ghost predicate TilesFrom(ts: seq<FragRec>, j: nat, rs: seq<FragRec>) {
    forall i :: 0 <= i < |rs| ==> exists k :: j <= k < |ts| && rs[i] == ts[k]
  }

  /** All tiles after number j are among the records. */
  ghost predicate AllAfter(ts: seq<FragRec>, j: nat, rs: seq<FragRec>) {
    forall k :: j < k < |ts| ==> ts[k] in rs
  }

  lemma TailTiles(ts: seq<FragRec>, j: nat, k: nat, rs: seq<FragRec>)
    requires Tiling(ts) && j <= k < |ts| && SortedByOffset(rs) && TilesFrom(ts, j, rs)
    requires rs != [] && rs[0] == ts[k]
    ensures TilesFrom(ts, k, rs[1..]) && SortedByOffset(rs[1..])
    ensures forall m :: k < m < |ts| ==> (ts[m] in rs <==> ts[m] in rs[1..])
  {
    var rest := rs[1..];
    assert rs == [rs[0]] + rest;
    forall i | 0 <= i < |rest|
      ensures exists m :: k <= m < |ts| && rest[i] == ts[m]
    {
      assert rest[i] == rs[i + 1] && rs[0].off <= rs[i + 1].off;
      var m :| j <= m < |ts| && rs[i + 1] == ts[m];
      if m < k {
        TilesAscend(ts, m, k);
      }
    }
    forall m | k < m < |ts|
      ensures ts[m] != rs[0]
    {
      TilesAscend(ts, k, m);
    }
  }

  lemma SkippedTile(ts: seq<FragRec>, j: nat, k: nat, rs: seq<FragRec>)
    requires Tiling(ts) && j + 1 < k < |ts| && SortedByOffset(rs) && rs != [] && rs[0] == ts[k]
    ensures ts[j + 1] !in rs && ts[k].off > End(ts[j])
  {
    TilesAscend(ts, j + 1, k);
    TilesAscend(ts, j, j + 1);
    forall i | 0 <= i < |rs|
      ensures rs[i] != ts[j + 1]
    {
      assert rs[0].off <= rs[i].off;
    }
  }

  /** Walking sorted tiles from the end of tile j, when the last tile is there: the walk
      succeeds exactly when no later tile is missing, and then ends where the payload does. */
  lemma {:induction false} WalkTiles(ts: seq<FragRec>, j: nat, rs: seq<FragRec>)
    requires Tiling(ts) && j < |ts| && SortedByOffset(rs) && TilesFrom(ts, j, rs)
    requires j == |ts| - 1 || ts[|ts| - 1] in rs
    ensures Walk(rs, End(ts[j])) == if AllAfter(ts, j, rs) then Some(End(ts[|ts| - 1])) else None
    decreases |rs|
  {
    if rs != [] {
      var k :| j <= k < |ts| && rs[0] == ts[k];
      if k <= j + 1 {
        hide Tiling, SortedByOffset, TilesFrom, AllAfter;
        TailTiles(ts, j, k, rs);
        StepTiles(ts, j, k, rs);
        WalkTiles(ts, k, rs[1..]);
      } else {
        SkippedTile(ts, j, k, rs);
      }
    }
  }

  lemma StepTiles(ts: seq<FragRec>, j: nat, k: nat, rs: seq<FragRec>)
    requires Tiling(ts) && j <= k <= j + 1 && k < |ts| && rs != [] && rs[0] == ts[k]
    requires forall m :: k < m < |ts| ==> (ts[m] in rs <==> ts[m] in rs[1..])
    ensures ts[k].off <= End(ts[j])
    ensures AllAfter(ts, j, rs) <==> AllAfter(ts, k, rs[1..])
    ensures k == |ts| - 1 || (ts[|ts| - 1] in rs <==> ts[|ts| - 1] in rs[1..])
  {
    assert ts[k] in rs;
  }

  /** The first tile starts the walk. */
  lemma WalkFromStart(ts: seq<FragRec>, rs: seq<FragRec>)
    requires Tiling(ts) && SortedByOffset(rs) && TilesFrom(ts, 0, rs)
    requires ts[0] in rs && ts[|ts| - 1] in rs
    ensures Walk(rs, 0) == if AllAfter(ts, 0, rs) then Some(End(ts[|ts| - 1])) else None
  {
    var i :| 0 <= i < |rs| && rs[i] == ts[0];
    assert rs[0].off <= rs[i].off;
    var k :| 0 <= k < |ts| && rs[0] == ts[k];
    if k > 0 {
      TilesAscend(ts, 0, k);
    }
    TailTiles(ts, 0, 0, rs);
    WalkTiles(ts, 0, rs[1..]);
    assert |ts| > 1 ==> (ts[|ts| - 1] in rs <==> ts[|ts| - 1] in rs[1..]);
  }

  /** All tiles have arrived. */
  ghost predicate Complete(ts: seq<FragRec>, rs: seq<FragRec>) {
    forall k :: 0 <= k < |ts| ==> ts[k] in rs
  }

  /** Arrival-order independence: for every order and every duplication of the tiles of a
      datagram, and every sort, the completion test succeeds exactly when no tile is
      missing, and then reports the payload length. */
  lemma CompletionIsCoverage(ts: seq<FragRec>, rs: seq<FragRec>, sorted: seq<FragRec>)
    requires Tiling(ts) && TilesFrom(ts, 0, rs) && IsSort(rs, sorted)
    ensures (ts[0] in rs && ts[|ts| - 1] in rs && Walk(sorted, 0).Some?) <==> Complete(ts, rs)
    ensures Complete(ts, rs) ==> Walk(sorted, 0) == Some(End(ts[|ts| - 1]))
  {
    SameMembers(rs, sorted);
    assert TilesFrom(ts, 0, sorted) by {
      forall i | 0 <= i < |sorted|
        ensures exists k :: 0 <= k < |ts| && sorted[i] == ts[k]
      {
        assert sorted[i] in rs;
        var m :| 0 <= m < |rs| && rs[m] == sorted[i];
      }
    }
    if ts[0] in rs && ts[|ts| - 1] in rs {
      WalkFromStart(ts, sorted);
      assert AllAfter(ts, 0, sorted) <==> Complete(ts, rs);
    }
  }

  lemma SameMembers<T>(a: seq<T>, b: seq<T>)
    requires multiset(a) == multiset(b)
    ensures forall x :: x in a <==> x in b
  {
    forall x
      ensures x in a <==> x in b
    {
      assert x in a <==> x in multiset(a);
      assert x in b <==> x in multiset(b);
    }
  }
}
