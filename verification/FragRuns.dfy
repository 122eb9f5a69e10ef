/** Theorems over every run of the fragment table: the index, the queue and the count stay
    coherent, expiry from the tail is a full scan, and a datagram is assembled exactly when
    its last missing tile arrives, in whatever order and company the tiles come. */
module FragRuns {
  import opened FlowKeys
  import opened FragSpec
  import opened Queues
  import opened FragMachine

  ghost predicate ByAge(t: map<FragKey, FragNode>, q: seq<FragKey>) {
    forall i, j :: 0 <= i <= j < |q| && q[i] in t && q[j] in t ==> t[q[i]].lastCtime <= t[q[j]].lastCtime
  }

  /** The queue lists the indexed nodes once each, least recently touched first. */
  ghost predicate Coherent(s: FragTab) {
    && Distinct(s.fraq)
    && (forall k :: k in s.fraq <==> k in s.table)
    && ByAge(s.table, s.fraq)
    && (forall k :: k in s.table ==> s.table[k].lastCtime <= s.ctime)
    && s.count == |s.fraq|
  }

  // ---- queue contents without a node ----

  lemma DropByAge(t: map<FragKey, FragNode>, q: seq<FragKey>, x: FragKey)
    requires ByAge(t, q)
    ensures ByAge(t, Without(q, x))
  {
    WithoutPairwise(q, x, (a, b) => a in t && b in t ==> t[a].lastCtime <= t[b].lastCtime);
  }

  // ---- steps keep coherence ----

  lemma TouchQueue(t: map<FragKey, FragNode>, q: seq<FragKey>, k: FragKey, n: FragNode)
    requires Distinct(q) && ByAge(t, q)
    requires forall x :: x in q ==> x in t && t[x].lastCtime <= n.lastCtime
    ensures Distinct(Without(q, k) + [k]) && ByAge(t[k := n], Without(q, k) + [k])
  {
    WithoutDistinct(q, k);
    DropByAge(t, q, k);
    var r := Without(q, k);
    forall i | 0 <= i < |r|
      ensures r[i] != k && r[i] in t && t[r[i]].lastCtime <= n.lastCtime
    {
      assert r[i] in r;
    }
  }

  lemma TouchCoherent(s: FragTab, k: FragKey)
    requires Coherent(s)
    ensures Coherent(Touch(s, k)) && k in Touch(s, k).table
  {
    var n := if k in s.table then s.table[k].(lastCtime := s.ctime) else FragNode(s.ctime, false, false, false, []);
    TouchQueue(s.table, s.fraq, k, n);
    WithoutDistinct(s.fraq, k);
    var s' := Touch(s, k);
    assert s'.fraq == Without(s.fraq, k) + [k];
    assert s'.table == s.table[k := n];
  }

  /** Changing a node's contents but not its age. */
  lemma UpdateCoherent(s: FragTab, k: FragKey, n: FragNode, st: FragStats)
    requires Coherent(s) && k in s.table && n.lastCtime == s.table[k].lastCtime
    ensures Coherent(s.(table := s.table[k := n], stats := st))
  {
  }

  lemma RemoveCoherent(s: FragTab, k: FragKey, drop: bool)
    requires Coherent(s) && k in s.table
    ensures Coherent(Remove(s, k, drop))
  {
    WithoutDistinct(s.fraq, k);
    DropByAge(s.table, s.fraq, k);
    var s' := Remove(s, k, drop);
    forall i, j | 0 <= i <= j < |s'.fraq| && s'.fraq[i] in s'.table && s'.fraq[j] in s'.table
      ensures s'.table[s'.fraq[i]].lastCtime <= s'.table[s'.fraq[j]].lastCtime
    {
      assert s.table[s'.fraq[i]].lastCtime <= s.table[s'.fraq[j]].lastCtime;
    }
  }

  lemma CompleteCoherent(s: FragTab, f: Fragment, sort: Sorter)
    requires Coherent(s) && f.key in s.table
    ensures Coherent(TryComplete(s, f, sort).tab)
  {
    var n := s.table[f.key];
    if n.haveFirst && n.haveLast {
      hide Coherent, Walk, Remove;
      var n' := n.(records := sort(n.records));
      var s1 := s.(table := s.table[f.key := n']);
      UpdateCoherent(s, f.key, n', s.stats);
      assert s1 == s.(table := s.table[f.key := n'], stats := s.stats);
      RemoveCoherent(s1, f.key, true);
      RemoveCoherent(s1, f.key, false);
    }
  }

  // ---- expiry ----

  /** If the least recent node is fresh, all are. */
  lemma {:induction false} AllFresh(s: FragTab, q: seq<FragKey>)
    requires forall k :: k in q ==> !Stale(s, k)
    ensures FreshKeys(s, q) == q
  {
    if q != [] {
      assert q[0] in q;
      AllFresh(s, q[1..]);
    }
  }

  /** Tail-only expiry equals a full scan: in a queue ordered by age, if the first n nodes
      have expired and the next has not, the fresh nodes are exactly the rest. */
  lemma {:induction false} FreshIsSuffix(s: FragTab, q: seq<FragKey>, n: nat)
    requires ByAge(s.table, q) && n <= |q| && (forall k :: k in q ==> k in s.table)
    requires forall i :: 0 <= i < n ==> Stale(s, q[i])
    requires n < |q| ==> !Stale(s, q[n])
    ensures FreshKeys(s, q) == q[n..]
    decreases n
  {
    if n == 0 {
      forall k | k in q
        ensures !Stale(s, k)
      {
        var i :| 0 <= i < |q| && q[i] == k;
        assert q[0] in q && s.table[q[0]].lastCtime <= s.table[q[i]].lastCtime;
      }
      AllFresh(s, q);
      assert q[0..] == q;
    } else {
      var rest := q[1..];
      assert forall i :: 0 <= i < |rest| ==> rest[i] == q[i + 1];
      FreshIsSuffix(s, rest, n - 1);
      assert rest[n - 1..] == q[n..];
    }
  }

  /** In a coherent table the fresh nodes are a suffix of the queue. */
  lemma StalePrefix(s: FragTab) returns (n: nat)
    requires Coherent(s)
    ensures n <= |s.fraq| && FreshKeys(s, s.fraq) == s.fraq[n..]
    ensures forall i :: 0 <= i < n ==> Stale(s, s.fraq[i])
    ensures n < |s.fraq| ==> !Stale(s, s.fraq[n])
    ensures DropStale(s) == DropTail(s, n)
  {
    n := 0;
    while n < |s.fraq| && Stale(s, s.fraq[n])
      invariant n <= |s.fraq|
      invariant forall i :: 0 <= i < n ==> Stale(s, s.fraq[i])
    {
      n := n + 1;
    }
    FreshIsSuffix(s, s.fraq, n);
    DropStaleIsTail(s, n);
  }

  lemma DropStaleIsTail(s: FragTab, n: nat)
    requires Coherent(s) && n <= |s.fraq| && FreshKeys(s, s.fraq) == s.fraq[n..]
    ensures DropStale(s) == DropTail(s, n)
  {
    SuffixComplement(s.fraq, n);
    assert Members(s.fraq) - Members(s.fraq[n..]) == Members(s.fraq[..n]);
  }

  lemma SuffixComplement<T>(q: seq<T>, n: nat)
    requires Distinct(q) && n <= |q|
    ensures forall k :: k in q && k !in q[n..] <==> k in q[..n]
  {
    assert q == q[..n] + q[n..];
    forall k | k in q[..n]
      ensures k !in q[n..]
    {
      var i :| 0 <= i < n && q[i] == k;
    }
  }

  lemma DropTailTable(s: FragTab, n: nat)
    requires Coherent(s) && n <= |s.fraq|
    ensures forall k :: k in DropTail(s, n).table <==> k in s.table && k !in s.fraq[..n]
    ensures forall k :: k in DropTail(s, n).table <==> k in s.fraq[n..]
    ensures forall k :: k in DropTail(s, n).table ==> k in s.table && DropTail(s, n).table[k] == s.table[k]
  {
    hide ByAge;
    SuffixComplement(s.fraq, n);
    assert s.fraq == s.fraq[..n] + s.fraq[n..];
  }

  lemma SuffixByAge(t: map<FragKey, FragNode>, t': map<FragKey, FragNode>, q: seq<FragKey>, n: nat)
    requires ByAge(t, q) && n <= |q| && forall k :: k in t' ==> k in t && t'[k] == t[k]
    ensures ByAge(t', q[n..])
  {
    var r := q[n..];
    forall i, j | 0 <= i <= j < |r| && r[i] in t' && r[j] in t'
      ensures t'[r[i]].lastCtime <= t'[r[j]].lastCtime
    {
      assert q[n + i] == r[i] && q[n + j] == r[j];
    }
  }

  lemma DropTailCoherent(s: FragTab, n: nat)
    requires Coherent(s) && n <= |s.fraq|
    ensures Coherent(DropTail(s, n))
    ensures forall k :: k in DropTail(s, n).table ==> k in s.table && DropTail(s, n).table[k] == s.table[k]
  {
    var s' := DropTail(s, n);
    DropTailTable(s, n);
    SuffixByAge(s.table, s'.table, s.fraq, n);
    hide ByAge, Members;
  }

  lemma PruneCoherent(s: FragTab)
    requires Coherent(s)
    ensures Coherent(Prune(s))
    ensures Prune(s).ctime == s.ctime
    ensures forall k :: k in Prune(s).table ==> k in s.table && Prune(s).table[k] == s.table[k]
  {
    if !PruneLimited(s) {
      var s1 := s.(pruneTime := s.ctime);
      assert Coherent(s1);
      hide Coherent;
      DropTailCoherent(s1, Excess(s1));
      var s2 := DropTail(s1, Excess(s1));
      var n := StalePrefix(s2);
      DropTailCoherent(s2, n);
    }
  }

  /** The table after the fragment has been recorded, before the completion test. */
  function Recorded(s: FragTab, f: Fragment): FragTab {
    Add(Touch(s.(ctime := f.ptime), f.key), f)
  }

  lemma RecordedCoherent(s: FragTab, f: Fragment)
    requires Coherent(s) && s.ctime <= f.ptime
    ensures Coherent(Recorded(s, f)) && f.key in Recorded(s, f).table && Recorded(s, f).ctime == f.ptime
  {
    var s0 := s.(ctime := f.ptime);
    assert Coherent(s0);
    hide Coherent;
    TouchCoherent(s0, f.key);
    var s1 := Touch(s0, f.key);
    UpdateCoherent(s1, f.key, AddRecord(s1.table[f.key], f), s1.stats.(frags := s1.stats.frags + 1));
  }

  lemma DefragCoherent(s: FragTab, f: Fragment, sort: Sorter)
    requires Coherent(s)
    ensures Coherent(Defrag(s, f, sort).tab)
  {
    if f.frag && s.ctime <= f.ptime {
      hide Coherent, Touch, Add, Prune, TryComplete;
      RecordedCoherent(s, f);
      var s2 := Recorded(s, f);
      CompleteCoherent(s2, f, sort);
      PruneCoherent(TryComplete(s2, f, sort).tab);
    }
  }

  /** The state after a run of packets; every reachable state is coherent. */
  ghost function Run(maxFrags: nat, fs: seq<Fragment>, sort: Sorter): (s: FragTab)
    ensures Coherent(s)
  {
    if fs == [] then EmptyTab(maxFrags)
    else
      var s := Run(maxFrags, fs[..|fs| - 1], sort);
      DefragCoherent(s, fs[|fs| - 1], sort);
      Defrag(s, fs[|fs| - 1], sort).tab
  }

  // ---- reassembly of one datagram in a run ----

  predicate Accepted(s: FragTab, f: Fragment) {
    f.frag && s.ctime <= f.ptime
  }

  /** Fragment f is one of the tiles: equal header length, more-fragments flag set on all but
      the last tile, and for TCP the transport header decoded from the first tile. */
  ghost predicate IsTile(ts: seq<FragRec>, h: u16, f: Fragment)
    requires ts != []
  {
    && f.iphlen == h <= f.iplen && FragRec(f.off, f.iplen - h) in ts
    && (f.more <==> FragRec(f.off, f.iplen - h) != ts[|ts| - 1])
    && (f.key.proto == PROTO_TCP && f.off == 0 ==> f.l4hlen != 0)
  }

  ghost predicate AllTiles(ts: seq<FragRec>, h: u16, k: FragKey, fs: seq<Fragment>)
    requires ts != []
  {
    forall i :: 0 <= i < |fs| && fs[i].frag && fs[i].key == k ==> IsTile(ts, h, fs[i])
  }

  /** The step for fragment f drops the node of key k by expiry or limit. */
  ghost predicate Pruned(s: FragTab, f: Fragment, sort: Sorter, k: FragKey) {
    var t := TryComplete(Recorded(s, f), f, sort).tab;
    k in t.table && k !in Prune(t).table
  }

  /** The tiles of key k still waiting after one more packet: none once they are complete. */
  ghost function Waiting(s: FragTab, f: Fragment, sort: Sorter, k: FragKey, ts: seq<FragRec>, rs: seq<FragRec>): seq<FragRec> {
    if !Accepted(s, f) then rs
    else
      var now := if f.key == k then rs + [RecordOf(f)] else rs;
      if (f.key == k && FragSpec.Complete(ts, now)) || Pruned(s, f, sort, k) then [] else now
  }

  /** Tiles of key k accepted since the datagram was last completed or dropped. */
  ghost function Since(maxFrags: nat, fs: seq<Fragment>, sort: Sorter, k: FragKey, ts: seq<FragRec>): seq<FragRec> {
    if fs == [] then []
    else
      var fs' := fs[..|fs| - 1];
      Waiting(Run(maxFrags, fs', sort), fs[|fs| - 1], sort, k, ts, Since(maxFrags, fs', sort, k, ts))
  }

  /** The node of key k holds exactly the given records of an incomplete datagram. */
  ghost predicate Pending(s: FragTab, k: FragKey, ts: seq<FragRec>, rs: seq<FragRec>)
    requires ts != []
  {
    if rs == [] then k !in s.table
    else
      && k in s.table
      && NodeHolds(s.table[k], k, ts, rs)
  }

  ghost predicate NodeHolds(n: FragNode, k: FragKey, ts: seq<FragRec>, rs: seq<FragRec>)
    requires ts != []
  {
    && multiset(n.records) == multiset(rs)
    && (n.haveFirst <==> ts[0] in rs)
    && (n.haveLast <==> ts[|ts| - 1] in rs)
    && (k.proto == PROTO_TCP && n.haveFirst ==> n.haveL4)
  }

  /** Only the first tile has offset zero. */
  lemma FirstTile(ts: seq<FragRec>, r: FragRec)
    requires Tiling(ts) && r in ts
    ensures r.off == 0 <==> r == ts[0]
  {
    var i :| 0 <= i < |ts| && ts[i] == r;
    if i > 0 {
      TilesAscend(ts, 0, i);
    }
  }

  lemma AddHolds(n: FragNode, k: FragKey, ts: seq<FragRec>, h: u16, rs: seq<FragRec>, f: Fragment)
    requires Tiling(ts) && NodeHolds(n, k, ts, rs) && IsTile(ts, h, f) && f.key == k
    ensures NodeHolds(AddRecord(n, f), k, ts, rs + [RecordOf(f)])
  {
    FirstTile(ts, RecordOf(f));
    assert RecordOf(f).off == f.off;
  }

  /** The completion test on a node that holds rs. */
  lemma TestIsCoverage(s: FragTab, f: Fragment, sort: Sorter, ts: seq<FragRec>, rs: seq<FragRec>)
    requires f.key in s.table && Sorts(sort) && Tiling(ts) && TilesFrom(ts, 0, rs) && rs != []
    requires NodeHolds(s.table[f.key], f.key, ts, rs) && End(ts[|ts| - 1]) + f.iphlen <= 0xFFFF
    ensures
      var r := TryComplete(s, f, sort);
      if FragSpec.Complete(ts, rs) then
        r.out == Assembled(End(ts[|ts| - 1]) + f.iphlen) && f.key !in r.tab.table
      else
        r.out == Held && f.key in r.tab.table && NodeHolds(r.tab.table[f.key], f.key, ts, rs)
  {
    var n := s.table[f.key];
    var sorted := sort(n.records);
    assert IsSort(n.records, sorted);
    assert IsSort(rs, sorted);
    CompletionIsCoverage(ts, rs, sorted);
    hide Walk, Tiling, TilesFrom, SortedByOffset;
    assert FragSpec.Complete(ts, rs) ==> ts[0] in rs && ts[|ts| - 1] in rs;
  }

  /** Soundness for arbitrary fragments: an assembled datagram has no uncovered octet below
      the end that was used for its length. */
  lemma AssembledIsCovered(s: FragTab, f: Fragment, sort: Sorter, x: nat)
    requires f.key in s.table && Sorts(sort) && TryComplete(s, f, sort).out.Assembled?
    ensures
      var rs := s.table[f.key].records;
      var end := Walk(sort(rs), 0);
      && end.Some? && TryComplete(s, f, sort).out.iplen == (end.value + f.iphlen) % 0x1_0000
      && (x < end.value ==> Covers(rs, x))
  {
    var rs := s.table[f.key].records;
    var sorted := sort(rs);
    if x < Walk(sorted, 0).value {
      WalkSound(sorted, 0, x);
      assert IsSort(rs, sorted);
      SameMembers(rs, sorted);
      var i :| 0 <= i < |sorted| && sorted[i].off <= x < sorted[i].off + sorted[i].len;
      assert sorted[i] in rs;
      var j :| 0 <= j < |rs| && rs[j] == sorted[i];
    }
  }

  lemma TilesPrefix(k: FragKey, ts: seq<FragRec>, h: u16, fs: seq<Fragment>)
    requires fs != [] && ts != [] && AllTiles(ts, h, k, fs)
    ensures AllTiles(ts, h, k, fs[..|fs| - 1])
    ensures fs[|fs| - 1].frag && fs[|fs| - 1].key == k ==> IsTile(ts, h, fs[|fs| - 1])
  {
    hide IsTile;
    var fs' := fs[..|fs| - 1];
    assert forall i :: 0 <= i < |fs'| ==> fs'[i] == fs[i];
  }

  /** A step for another datagram leaves the node of key k alone. */
  lemma OtherKey(s: FragTab, f: Fragment, sort: Sorter, k: FragKey)
    requires Coherent(s) && s.ctime <= f.ptime && f.key != k
    ensures
      var t := TryComplete(Recorded(s, f), f, sort).tab;
      (k in t.table <==> k in s.table) && (k in s.table ==> t.table[k] == s.table[k])
  {
    hide Coherent, Without, Walk, AddRecord;
  }

  /** The fragment is recorded in the node of its own key. */
  lemma RecordedHolds(s: FragTab, f: Fragment, ts: seq<FragRec>, h: u16, rs: seq<FragRec>)
    requires Tiling(ts) && Pending(s, f.key, ts, rs) && IsTile(ts, h, f)
    ensures
      var t := Recorded(s, f);
      f.key in t.table && NodeHolds(t.table[f.key], f.key, ts, rs + [RecordOf(f)])
  {
    var k := f.key;
    var n := if k in s.table then s.table[k].(lastCtime := f.ptime) else FragNode(f.ptime, false, false, false, []);
    assert NodeHolds(n, k, ts, rs);
    AddHolds(n, k, ts, h, rs, f);
    hide NodeHolds, AddRecord, Without;
    assert Recorded(s, f).table[k] == AddRecord(n, f);
  }

  /** The node of key k holds exactly rs, which are tiles and not all of them. */
  ghost predicate Collecting(s: FragTab, k: FragKey, ts: seq<FragRec>, rs: seq<FragRec>)
    requires ts != []
  {
    Pending(s, k, ts, rs) && TilesFrom(ts, 0, rs) && !FragSpec.Complete(ts, rs)
  }

  lemma NoneWaiting(s: FragTab, k: FragKey, ts: seq<FragRec>)
    requires ts != [] && k !in s.table
    ensures Collecting(s, k, ts, [])
  {
    assert ts[0] !in [];
  }

  lemma GrowTiles(ts: seq<FragRec>, rs: seq<FragRec>, r: FragRec)
    requires TilesFrom(ts, 0, rs) && r in ts
    ensures TilesFrom(ts, 0, rs + [r])
  {
  }

  /** What a tile of the datagram does before pruning: the datagram is assembled and its node
      gone exactly when the tile was the last one missing. */
  lemma TileStep(s: FragTab, f: Fragment, sort: Sorter, ts: seq<FragRec>, h: u16, rs: seq<FragRec>)
    requires Accepted(s, f) && Sorts(sort) && Tiling(ts) && End(ts[|ts| - 1]) + h <= 0xFFFF
    requires Collecting(s, f.key, ts, rs) && IsTile(ts, h, f)
    ensures
      var now := rs + [RecordOf(f)];
      var r := TryComplete(Recorded(s, f), f, sort);
      && r.out == (if FragSpec.Complete(ts, now) then Assembled(End(ts[|ts| - 1]) + h) else Held)
      && Collecting(r.tab, f.key, ts, if FragSpec.Complete(ts, now) then [] else now)
  {
    hide Tiling, NodeHolds, FragSpec.Complete, Recorded, TryComplete;
    var now := rs + [RecordOf(f)];
    RecordedHolds(s, f, ts, h, rs);
    GrowTiles(ts, rs, RecordOf(f));
    TestIsCoverage(Recorded(s, f), f, sort, ts, now);
    if FragSpec.Complete(ts, now) {
      NoneWaiting(TryComplete(Recorded(s, f), f, sort).tab, f.key, ts);
    }
  }

  /** Every packet, of this datagram or another, keeps the node in step with the tiles. */
  lemma StepCollecting(s: FragTab, f: Fragment, sort: Sorter, k: FragKey, ts: seq<FragRec>, h: u16, rs: seq<FragRec>)
    requires Coherent(s) && Sorts(sort) && Tiling(ts) && End(ts[|ts| - 1]) + h <= 0xFFFF
    requires Collecting(s, k, ts, rs) && (f.frag && f.key == k ==> IsTile(ts, h, f))
    ensures Collecting(Defrag(s, f, sort).tab, k, ts, Waiting(s, f, sort, k, ts, rs))
  {
    if Accepted(s, f) {
      hide Coherent, Collecting, FragSpec.Complete, Tiling, IsTile;
      RecordedCoherent(s, f);
      CompleteCoherent(Recorded(s, f), f, sort);
      var t := TryComplete(Recorded(s, f), f, sort).tab;
      var now := if f.key == k then rs + [RecordOf(f)] else rs;
      var left := if f.key == k && FragSpec.Complete(ts, now) then [] else now;
      if f.key == k {
        TileStep(s, f, sort, ts, h, rs);
      } else {
        OtherCollecting(s, f, sort, k, ts, rs);
      }
      PruneCollecting(t, k, ts, left);
      hide TryComplete, Recorded, Prune;
    }
  }

  lemma OtherCollecting(s: FragTab, f: Fragment, sort: Sorter, k: FragKey, ts: seq<FragRec>, rs: seq<FragRec>)
    requires Coherent(s) && Accepted(s, f) && f.key != k && ts != [] && Collecting(s, k, ts, rs)
    ensures Collecting(TryComplete(Recorded(s, f), f, sort).tab, k, ts, rs)
  {
    hide TryComplete, Recorded, Coherent, NodeHolds, TilesFrom, FragSpec.Complete;
    OtherKey(s, f, sort, k);
  }

  /** Pruning leaves the node alone or takes it away. */
  lemma PruneCollecting(t: FragTab, k: FragKey, ts: seq<FragRec>, rs: seq<FragRec>)
    requires Coherent(t) && ts != [] && Collecting(t, k, ts, rs)
    ensures Collecting(Prune(t), k, ts, if k in t.table && k !in Prune(t).table then [] else rs)
  {
    PruneCoherent(t);
    if k !in Prune(t).table {
      NoneWaiting(Prune(t), k, ts);
    }
    hide Coherent, Prune, NodeHolds, TilesFrom, FragSpec.Complete;
  }

  /** In every run the node of a datagram holds exactly the tiles accepted since it was last
      completed or dropped, and these are never all of them. */
  lemma {:induction false} SinceIsCollected(maxFrags: nat, fs: seq<Fragment>, sort: Sorter, k: FragKey,
                                            ts: seq<FragRec>, h: u16)
    requires Sorts(sort) && Tiling(ts) && End(ts[|ts| - 1]) + h <= 0xFFFF && AllTiles(ts, h, k, fs)
    ensures Collecting(Run(maxFrags, fs, sort), k, ts, Since(maxFrags, fs, sort, k, ts))
  {
    if fs == [] {
      NoneWaiting(EmptyTab(maxFrags), k, ts);
    } else {
      var fs', f := fs[..|fs| - 1], fs[|fs| - 1];
      TilesPrefix(k, ts, h, fs);
      SinceIsCollected(maxFrags, fs', sort, k, ts, h);
      hide Collecting, Waiting, Tiling, Defrag, IsTile, AllTiles, Coherent;
      StepCollecting(Run(maxFrags, fs', sort), f, sort, k, ts, h, Since(maxFrags, fs', sort, k, ts));
    }
  }

  lemma TileRecord(ts: seq<FragRec>, h: u16, f: Fragment)
    requires ts != [] && IsTile(ts, h, f)
    ensures f.iplen >= h && RecordOf(f) == FragRec(f.off, f.iplen - h)
  {
  }

  lemma DefragOut(s: FragTab, f: Fragment, sort: Sorter)
    requires Coherent(s) && Accepted(s, f)
    ensures f.key in Recorded(s, f).table
    ensures Defrag(s, f, sort).out == TryComplete(Recorded(s, f), f, sort).out
  {
    RecordedCoherent(s, f);
    hide Coherent, TryComplete, Touch, Add, Prune;
  }

  /** Reassembly: in any run, with any other traffic, any order and any duplicates, an accepted
      packet that carries a tile is replaced by the assembled datagram exactly when it brings the
      last tile missing since the datagram was last completed or dropped; the IP length is then
      payload plus header. Otherwise it is held back. */
  lemma AssembledByLastTile(maxFrags: nat, fs: seq<Fragment>, f: Fragment, sort: Sorter,
                            ts: seq<FragRec>, h: u16)
    requires Sorts(sort) && Tiling(ts) && End(ts[|ts| - 1]) + h <= 0xFFFF
    requires AllTiles(ts, h, f.key, fs) && IsTile(ts, h, f) && Accepted(Run(maxFrags, fs, sort), f)
    ensures
      var rs := Since(maxFrags, fs, sort, f.key, ts);
      && !FragSpec.Complete(ts, rs)
      && Defrag(Run(maxFrags, fs, sort), f, sort).out
         == (if FragSpec.Complete(ts, rs + [FragRec(f.off, f.iplen - h)]) then Assembled(End(ts[|ts| - 1]) + h) else Held)
  {
    hide Run, Since, Coherent, FragSpec.Complete, IsTile, AllTiles, Defrag;
    SinceIsCollected(maxFrags, fs, sort, f.key, ts, h);
    TileRecord(ts, h, f);
    DefragOut(Run(maxFrags, fs, sort), f, sort);
    TileStep(Run(maxFrags, fs, sort), f, sort, ts, h, Since(maxFrags, fs, sort, f.key, ts));
  }

  // ---- when a datagram is dropped ----

  /** A node is dropped only if a packet of another datagram comes more than the timeout after
      its last fragment, or if the table has reached its limit. */
  lemma PrunedOnlyWhen(s: FragTab, f: Fragment, sort: Sorter, k: FragKey)
    requires Coherent(s) && Accepted(s, f) && Pruned(s, f, sort, k)
    ensures
      || (f.key != k && k in s.table && f.ptime - s.table[k].lastCtime > FRAG_TIMEOUT)
      || 0 < s.maxFrags <= TryComplete(Recorded(s, f), f, sort).tab.count
  {
    RecordedCoherent(s, f);
    CompleteCoherent(Recorded(s, f), f, sort);
    var t := TryComplete(Recorded(s, f), f, sort).tab;
    StepFacts(s, f, sort, k);
    PrunedNode(t, k);
    hide Coherent, TryComplete, Recorded, Prune;
  }

  lemma StepFacts(s: FragTab, f: Fragment, sort: Sorter, k: FragKey)
    requires Coherent(s) && Accepted(s, f)
    ensures
      var t := TryComplete(Recorded(s, f), f, sort).tab;
      && t.ctime == f.ptime && t.maxFrags == s.maxFrags
      && (f.key == k && k in t.table ==> t.table[k].lastCtime == f.ptime)
      && (f.key != k ==> (k in t.table <==> k in s.table) && (k in t.table ==> t.table[k] == s.table[k]))
  {
    hide Coherent, Without, Walk;
  }

  lemma PrunedNode(t: FragTab, k: FragKey)
    requires Coherent(t) && k in t.table && k !in Prune(t).table
    ensures t.ctime - t.table[k].lastCtime > FRAG_TIMEOUT || 0 < t.maxFrags <= t.count
  {
    var s1 := t.(pruneTime := t.ctime);
    if Excess(s1) == 0 {
      DropNothing(s1);
      KeptUnlessStale(s1, k);
    }
  }

  lemma DropNothing(s: FragTab)
    ensures DropTail(s, 0) == s
  {
    assert s.fraq[..0] == [] && s.fraq[0..] == s.fraq;
    assert s.table - Members([]) == s.table;
  }

  lemma KeptUnlessStale(s: FragTab, k: FragKey)
    requires k in s.table
    ensures k in DropStale(s).table || Stale(s, k)
  {
    MembersIn(s.fraq, k);
    MembersIn(FreshKeys(s, s.fraq), k);
  }

  lemma {:induction false} MembersIn<T>(q: seq<T>, x: T)
    ensures x in Members(q) <==> x in q
  {
    if q != [] {
      MembersIn(q[1..], x);
    }
  }

  /** Keys of the fragments in a run. */
  function Keys(fs: seq<Fragment>): set<FragKey> {
    if fs == [] then {} else Keys(fs[..|fs| - 1]) + {fs[|fs| - 1].key}
  }

  /** Time of the last accepted fragment of key k. */
  ghost function LastTile(maxFrags: nat, fs: seq<Fragment>, sort: Sorter, k: FragKey): int {
    if fs == [] then 0
    else
      var fs', f := fs[..|fs| - 1], fs[|fs| - 1];
      if f.key == k && Accepted(Run(maxFrags, fs', sort), f) then f.ptime else LastTile(maxFrags, fs', sort, k)
  }

  /** Nodes carry the time of their last fragment, and are no more than the keys seen. */
  lemma {:induction false} NodesOfRun(maxFrags: nat, fs: seq<Fragment>, sort: Sorter, k: FragKey)
    ensures
      var s := Run(maxFrags, fs, sort);
      && s.maxFrags == maxFrags
      && (k in s.table ==> k in Keys(fs) && s.table[k].lastCtime == LastTile(maxFrags, fs, sort, k))
  {
    if fs != [] {
      var fs', f := fs[..|fs| - 1], fs[|fs| - 1];
      var s := Run(maxFrags, fs', sort);
      NodesOfRun(maxFrags, fs', sort, k);
      if Accepted(s, f) {
        RecordedCoherent(s, f);
        CompleteCoherent(Recorded(s, f), f, sort);
        StepFacts(s, f, sort, k);
        PruneKeepsLimit(TryComplete(Recorded(s, f), f, sort).tab);
        PruneCoherent(TryComplete(Recorded(s, f), f, sort).tab);
        hide Coherent, TryComplete, Recorded, Prune;
      }
    }
  }

  lemma PruneKeepsLimit(t: FragTab)
    ensures Prune(t).maxFrags == t.maxFrags
  {
  }

  /** The table never holds more nodes than keys, the current packet's included. */
  lemma CountBound(maxFrags: nat, fs: seq<Fragment>, f: Fragment, sort: Sorter)
    requires Accepted(Run(maxFrags, fs, sort), f)
    ensures TryComplete(Recorded(Run(maxFrags, fs, sort), f), f, sort).tab.count <= |Keys(fs + [f])|
  {
    var s := Run(maxFrags, fs, sort);
    RecordedCoherent(s, f);
    CompleteCoherent(Recorded(s, f), f, sort);
    var t := TryComplete(Recorded(s, f), f, sort).tab;
    assert (fs + [f])[..|fs|] == fs;
    forall k | k in t.fraq
      ensures k in Keys(fs + [f])
    {
      assert k in t.table;
      NodesOfRun(maxFrags, fs, sort, k);
      StepFacts(s, f, sort, k);
    }
    assert t.count == |t.fraq|;
    hide TryComplete, Recorded, Run;
    DistinctBound(t.fraq, Keys(fs + [f]));
  }

  /** Read off the packets: with no limit, or a limit above the number of datagrams in the run,
      the tiles waiting are dropped only when a packet of another datagram comes more than the
      timeout after the last of them. */
  lemma KeptWhenRecent(maxFrags: nat, fs: seq<Fragment>, f: Fragment, sort: Sorter, k: FragKey)
    requires Accepted(Run(maxFrags, fs, sort), f)
    requires maxFrags == 0 || |Keys(fs + [f])| < maxFrags
    requires f.key == k || f.ptime - LastTile(maxFrags, fs, sort, k) <= FRAG_TIMEOUT
    ensures !Pruned(Run(maxFrags, fs, sort), f, sort, k)
  {
    var s := Run(maxFrags, fs, sort);
    if Pruned(s, f, sort, k) {
      hide Pruned, TryComplete, Recorded, Run, LastTile, Keys;
      PrunedOnlyWhen(s, f, sort, k);
      NodesOfRun(maxFrags, fs, sort, k);
      CountBound(maxFrags, fs, f, sort);
    }
  }
}
