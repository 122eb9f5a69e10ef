/** Expiry in the fragment table: when pruning happens, which nodes it drops, and how old a node
    can get. */
module FragExpiry {
  import opened Queues
  import opened FragSpec
  import opened FragMachine
  import opened FragRuns

  /** Pruning happens the first time, and then at least five seconds after the last. */
  predicate Due(s: FragTab) {
    s.pruneTime == 0 || s.ctime >= s.pruneTime + 5000
  }

  /** How many nodes have to go for the count to be under the limit. */
  function Over(s: FragTab): nat {
    if s.maxFrags == 0 || s.count < s.maxFrags then 0 else s.count - s.maxFrags + 1
  }

  /** Pruning that is not due changes nothing; pruning that is due keeps exactly the nodes touched
      in the last thirty seconds, less the least recently touched ones above the limit. */
  lemma PruneIsFullScan(s: FragTab, k: FragKey)
    requires Coherent(s)
    ensures !Due(s) ==> Prune(s) == s
    ensures Due(s) ==> Prune(s).pruneTime == s.ctime && Over(s) <= |s.fraq|
    ensures Due(s) ==> (k in Prune(s).table <==> k in s.fraq[Over(s)..] && s.ctime - s.table[k].lastCtime <= 30000)
    ensures Due(s) && s.maxFrags > 0 ==> Prune(s).count < s.maxFrags
    ensures k in Prune(s).table ==> k in s.table && Prune(s).table[k] == s.table[k]
  {
    if Due(s) {
      var s1 := s.(pruneTime := s.ctime);
      assert Coherent(s1) && Excess(s1) == Over(s);
      hide Coherent;
      PruneCoherent(s);
      DropTailCoherent(s1, Over(s));
      ExcessGone(s1, Over(s), k);
      StaleGone(DropTail(s1, Over(s)), k);
    }
  }

  lemma ExcessGone(s: FragTab, n: nat, k: FragKey)
    requires Coherent(s) && n <= |s.fraq|
    ensures
      var s' := DropTail(s, n);
      && s'.count == s.count - n && s'.ctime == s.ctime
      && (k in s'.table <==> k in s.fraq[n..])
      && (k in s'.table ==> k in s.table && s'.table[k] == s.table[k])
  {
    DropTailTable(s, n);
  }

  lemma StaleGone(s: FragTab, k: FragKey)
    requires Coherent(s)
    ensures k in DropStale(s).table <==> k in s.table && s.ctime - s.table[k].lastCtime <= 30000
    ensures DropStale(s).count <= s.count && DropStale(s).pruneTime == s.pruneTime
  {
    MembersIn(s.fraq, k);
    MembersIn(FreshKeys(s, s.fraq), k);
  }

  // ---- over runs ----

  /** No node was expired when the table was last pruned. */
  ghost predicate Scanned(s: FragTab) {
    && s.pruneTime <= s.ctime
    && forall k :: k in s.table ==> s.pruneTime - s.table[k].lastCtime <= 30000
  }

  /** The table a packet finds when it has been recorded and tested, before pruning. */
  lemma BeforePrune(s: FragTab, f: Fragment, sort: Sorter)
    requires Coherent(s) && Accepted(s, f)
    ensures f.key in Recorded(s, f).table
    ensures
      var t := TryComplete(Recorded(s, f), f, sort).tab;
      && Coherent(t) && t.ctime == f.ptime && t.pruneTime == s.pruneTime && t.maxFrags == s.maxFrags
      && Defrag(s, f, sort).tab == Prune(t)
  {
    RecordedCoherent(s, f);
    CompleteCoherent(Recorded(s, f), f, sort);
    StepFacts(s, f, sort, f.key);
    hide Coherent, Walk, Without, Prune;
  }

  /** What an accepted packet leaves: if pruning was due, only nodes touched in the last thirty
      seconds, and fewer than the limit; if not, none older than that by five seconds or more. */
  lemma AcceptedLeaves(s: FragTab, f: Fragment, sort: Sorter, k: FragKey)
    requires Coherent(s) && Scanned(s) && Accepted(s, f)
    ensures
      var t := Defrag(s, f, sort).tab;
      var due := s.pruneTime == 0 || f.ptime >= s.pruneTime + 5000;
      && t.ctime == f.ptime && t.pruneTime == (if due then f.ptime else s.pruneTime)
      && (k in t.table ==> t.ctime - t.table[k].lastCtime < (if due then 30001 else 35000))
      && (due && s.maxFrags > 0 ==> t.count < s.maxFrags)
  {
    hide Coherent, TryComplete, Recorded, Prune, Defrag;
    BeforePrune(s, f, sort);
    var t := TryComplete(Recorded(s, f), f, sort).tab;
    PruneCoherent(t);
    PruneIsFullScan(t, k);
    StepFacts(s, f, sort, k);
  }

  lemma {:induction false} RunScanned(maxFrags: nat, fs: seq<Fragment>, sort: Sorter)
    ensures Scanned(Run(maxFrags, fs, sort))
  {
    if fs != [] {
      var fs', f := fs[..|fs| - 1], fs[|fs| - 1];
      var s := Run(maxFrags, fs', sort);
      RunScanned(maxFrags, fs', sort);
      if Accepted(s, f) {
        hide Coherent, Defrag;
        forall k
          ensures
            var t := Defrag(s, f, sort).tab;
            t.pruneTime <= t.ctime && (k in t.table ==> t.pruneTime - t.table[k].lastCtime <= 30000)
        {
          AcceptedLeaves(s, f, sort, k);
          if k in Defrag(s, f, sort).tab.table {
            StillScanned(s, f, sort, k);
          }
        }
      }
    }
  }

  lemma StillScanned(s: FragTab, f: Fragment, sort: Sorter, k: FragKey)
    requires Coherent(s) && Scanned(s) && Accepted(s, f) && k in Defrag(s, f, sort).tab.table
    ensures s.pruneTime - Defrag(s, f, sort).tab.table[k].lastCtime <= 30000
  {
    hide Coherent, TryComplete, Recorded, Prune, Defrag;
    BeforePrune(s, f, sort);
    PruneCoherent(TryComplete(Recorded(s, f), f, sort).tab);
    StepFacts(s, f, sort, k);
  }

  /** In every run, after every accepted packet, no node has been waiting for thirty-five seconds
      since its last fragment; when the packet pruned the table, for more than thirty, and there are
      fewer nodes than the limit. */
  lemma NodesAreFresh(maxFrags: nat, fs: seq<Fragment>, f: Fragment, sort: Sorter, k: FragKey)
    requires Accepted(Run(maxFrags, fs, sort), f)
    ensures
      var s := Run(maxFrags, fs, sort);
      var t := Defrag(s, f, sort).tab;
      var due := s.pruneTime == 0 || f.ptime >= s.pruneTime + 5000;
      && (k in t.table ==> f.ptime - t.table[k].lastCtime < 35000)
      && (due && k in t.table ==> f.ptime - t.table[k].lastCtime <= 30000)
      && (due && maxFrags > 0 ==> t.count < maxFrags)
  {
    hide Run, Defrag, Coherent;
    RunScanned(maxFrags, fs, sort);
    NodesOfRun(maxFrags, fs, sort, k);
    AcceptedLeaves(Run(maxFrags, fs, sort), f, sort, k);
  }

  /** The converse of being kept: the tiles of a datagram are dropped by a packet of another one
      that comes more than thirty seconds after the last of them and finds pruning due. */
  lemma DroppedWhenOld(maxFrags: nat, fs: seq<Fragment>, f: Fragment, sort: Sorter, k: FragKey)
    requires Accepted(Run(maxFrags, fs, sort), f) && f.key != k
    requires f.ptime - LastTile(maxFrags, fs, sort, k) > 30000
    requires Run(maxFrags, fs, sort).pruneTime == 0 || f.ptime >= Run(maxFrags, fs, sort).pruneTime + 5000
    ensures k !in Defrag(Run(maxFrags, fs, sort), f, sort).tab.table
  {
    hide Run, Defrag, Coherent, TryComplete, Recorded, Prune, LastTile;
    var s := Run(maxFrags, fs, sort);
    NodesOfRun(maxFrags, fs, sort, k);
    BeforePrune(s, f, sort);
    StepFacts(s, f, sort, k);
    PruneIsFullScan(TryComplete(Recorded(s, f), f, sort).tab, k);
  }

  // ---- the clock ----

  /** The latest time of a fragment. */
  function Latest(fs: seq<Fragment>): (r: nat)
    ensures forall i :: 0 <= i < |fs| && fs[i].frag ==> fs[i].ptime <= r
    ensures r == 0 || exists i :: 0 <= i < |fs| && fs[i].frag && fs[i].ptime == r
  {
    if fs == [] then 0
    else
      var n := |fs| - 1;
      var r := Latest(fs[..n]);
      assert fs == fs[..n] + [fs[n]];
      if fs[n].frag && fs[n].ptime > r then fs[n].ptime else r
  }

  /** A fragment is rejected exactly when an earlier fragment was later. */
  lemma {:induction false} RejectedIsOlder(maxFrags: nat, fs: seq<Fragment>, f: Fragment, sort: Sorter)
    ensures Run(maxFrags, fs, sort).ctime == Latest(fs)
    ensures Defrag(Run(maxFrags, fs, sort), f, sort).out.Rejected? <==> f.frag && f.ptime < Latest(fs)
    ensures Defrag(Run(maxFrags, fs, sort), f, sort).out.Passed? <==> !f.frag
    decreases |fs|
  {
    hide Coherent, Latest;
    if fs == [] {
      assert Latest([]) == 0 by { LatestStep([f]); }
    } else {
      var fs', g := fs[..|fs| - 1], fs[|fs| - 1];
      var s := Run(maxFrags, fs', sort);
      RejectedIsOlder(maxFrags, fs', g, sort);
      LatestStep(fs);
      if Accepted(s, g) {
        BeforePrune(s, g, sort);
        PruneCoherent(TryComplete(Recorded(s, g), g, sort).tab);
        hide Defrag, TryComplete, Recorded, Prune;
      }
    }
    OutcomeOf(Run(maxFrags, fs, sort), f, sort);
  }

  lemma LatestStep(fs: seq<Fragment>)
    requires fs != []
    ensures
      var r, g := Latest(fs[..|fs| - 1]), fs[|fs| - 1];
      Latest(fs) == (if g.frag && g.ptime > r then g.ptime else r) && Latest([]) == 0
  {
  }

  lemma OutcomeOf(s: FragTab, f: Fragment, sort: Sorter)
    ensures Defrag(s, f, sort).out.Rejected? <==> f.frag && f.ptime < s.ctime
    ensures Defrag(s, f, sort).out.Passed? <==> !f.frag
    ensures !Accepted(s, f) ==> Defrag(s, f, sort).tab.ctime == s.ctime
  {
  }
}
