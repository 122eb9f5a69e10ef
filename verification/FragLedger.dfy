/** What a fragment node says about its fragments, whatever they are, and what the statistics of
    the fragment table say about a run. */
module FragLedger {
  import opened Queues
  import opened FragSpec
  import opened FragMachine
  import opened FragRuns

  // ---- the fragments behind a node ----

  /** Fragments of key k accepted since its node was made. */
  ghost function Collected(maxFrags: nat, fs: seq<Fragment>, sort: Sorter, k: FragKey): seq<Fragment> {
    if fs == [] then []
    else
      var fs', f := fs[..|fs| - 1], fs[|fs| - 1];
      var c := Collected(maxFrags, fs', sort, k);
      if !Accepted(Run(maxFrags, fs', sort), f) then c
      else if k !in Run(maxFrags, fs, sort).table then []
      else if f.key == k then c + [f]
      else c
  }

  /** Offset and length of each fragment, in 16-bit arithmetic. */
  function Extents(c: seq<Fragment>): multiset<FragRec> {
    if c == [] then multiset{}
    else
      var f := c[|c| - 1];
      Extents(c[..|c| - 1]) + multiset{FragRec(f.off, (f.iplen - f.iphlen) % 0x1_0000)}
  }

  ghost predicate HasFirst(c: seq<Fragment>) {
    exists i :: 0 <= i < |c| && c[i].off == 0
  }

  ghost predicate HasLast(c: seq<Fragment>) {
    exists i :: 0 <= i < |c| && !c[i].more
  }

  /** A first fragment with its transport header decoded. */
  ghost predicate HasHeader(c: seq<Fragment>) {
    exists i :: 0 <= i < |c| && c[i].off == 0 && c[i].l4hlen != 0
  }

  ghost predicate Describes(n: FragNode, c: seq<Fragment>) {
    && multiset(n.records) == Extents(c)
    && (n.haveFirst <==> HasFirst(c))
    && (n.haveLast <==> HasLast(c))
    && (n.haveL4 <==> HasHeader(c))
  }

  lemma DescribesNext(n: FragNode, c: seq<Fragment>, f: Fragment)
    requires Describes(n, c)
    ensures Describes(AddRecord(n, f), c + [f])
  {
    hide HasFirst, HasLast, HasHeader;
    assert (c + [f])[..|c|] == c;
    FirstNext(c, f);
    LastNext(c, f);
    HeaderNext(c, f);
  }

  lemma FirstNext(c: seq<Fragment>, f: Fragment)
    ensures HasFirst(c + [f]) <==> HasFirst(c) || f.off == 0
  {
    var d := c + [f];
    assert d[|c|] == f && forall i :: 0 <= i < |c| ==> d[i] == c[i];
  }

  lemma LastNext(c: seq<Fragment>, f: Fragment)
    ensures HasLast(c + [f]) <==> HasLast(c) || !f.more
  {
    var d := c + [f];
    assert d[|c|] == f && forall i :: 0 <= i < |c| ==> d[i] == c[i];
  }

  lemma HeaderNext(c: seq<Fragment>, f: Fragment)
    ensures HasHeader(c + [f]) <==> HasHeader(c) || (f.off == 0 && f.l4hlen != 0)
  {
    var d := c + [f];
    assert d[|c|] == f && forall i :: 0 <= i < |c| ==> d[i] == c[i];
  }

  /** The node of key k, if there is one, describes c. */
  ghost predicate Holds(s: FragTab, k: FragKey, c: seq<Fragment>) {
    if k in s.table then Describes(s.table[k], c) else c == []
  }

  lemma RecordedDescribes(s: FragTab, f: Fragment, c: seq<Fragment>)
    requires Holds(s, f.key, c)
    ensures f.key in Recorded(s, f).table && Describes(Recorded(s, f).table[f.key], c + [f])
  {
    hide Describes, AddRecord, Without;
    var n := if f.key in s.table then s.table[f.key].(lastCtime := f.ptime) else FragNode(f.ptime, false, false, false, []);
    assert Describes(n, c) by { NewNode(n, c, if f.key in s.table then s.table[f.key] else n); }
    DescribesNext(n, c, f);
    assert Recorded(s, f).table[f.key] == AddRecord(n, f);
  }

  lemma NewNode(n: FragNode, c: seq<Fragment>, m: FragNode)
    requires (Describes(m, c) && n == m.(lastCtime := n.lastCtime))
          || (c == [] && n == FragNode(n.lastCtime, false, false, false, []))
    ensures Describes(n, c)
  {
  }

  /** What the completion test does with a node that describes c: the outcome, and the node. */
  lemma TestOutcome(s: FragTab, f: Fragment, sort: Sorter, c: seq<Fragment>)
    requires f.key in s.table && Sorts(sort) && Describes(s.table[f.key], c)
    ensures
      var r := TryComplete(s, f, sort);
      && (r.out.Held? || r.out.Assembled?)
      && (f.key in r.tab.table ==> Describes(r.tab.table[f.key], c) && r.out.Held?)
      && exists sorted :: multiset(sorted) == Extents(c) && SortedByOffset(sorted) && Verdict(r, f, c, sorted)
  {
    var sorted := sort(s.table[f.key].records);
    assert IsSort(s.table[f.key].records, sorted);
    hide HasFirst, HasLast, HasHeader, Walk, Without;
    assert Verdict(TryComplete(s, f, sort), f, c, sorted);
  }

  /** The datagram is assembled if a first and a last fragment are there, the records leave no gap,
      and for TCP the transport header has been decoded; without that header it is dropped. */
  ghost predicate Verdict(r: Stepped, f: Fragment, c: seq<Fragment>, sorted: seq<FragRec>) {
    var whole := HasFirst(c) && HasLast(c) && Walk(sorted, 0).Some?;
    && (r.out.Assembled? <==> whole && (f.key.proto == 6 ==> HasHeader(c)))
    && (r.out.Assembled? ==> r.out.iplen == (Walk(sorted, 0).value + f.iphlen) % 0x1_0000)
    && (f.key !in r.tab.table <==> whole)
  }

  /** In every run, whatever the fragments, each node describes the fragments accepted for its key
      since it was made. */
  lemma {:induction false} NodeIsCollected(maxFrags: nat, fs: seq<Fragment>, sort: Sorter, k: FragKey)
    requires Sorts(sort)
    ensures Holds(Run(maxFrags, fs, sort), k, Collected(maxFrags, fs, sort, k))
  {
    if fs != [] {
      hide Holds, Defrag, Coherent, Describes;
      var fs', f := fs[..|fs| - 1], fs[|fs| - 1];
      var s := Run(maxFrags, fs', sort);
      NodeIsCollected(maxFrags, fs', sort, k);
      if Accepted(s, f) {
        StepHolds(s, f, sort, k, Collected(maxFrags, fs', sort, k));
      } else {
        SkipHolds(s, f, sort, k, Collected(maxFrags, fs', sort, k));
      }
    }
  }

  lemma SkipHolds(s: FragTab, f: Fragment, sort: Sorter, k: FragKey, c: seq<Fragment>)
    requires Holds(s, k, c) && !Accepted(s, f)
    ensures Holds(Defrag(s, f, sort).tab, k, c)
  {
    hide Describes;
  }

  lemma StepHolds(s: FragTab, f: Fragment, sort: Sorter, k: FragKey, c: seq<Fragment>)
    requires Coherent(s) && Accepted(s, f) && Sorts(sort) && Holds(s, k, c)
    ensures
      var t := Defrag(s, f, sort).tab;
      Holds(t, k, if k !in t.table then [] else if f.key == k then c + [f] else c)
  {
    hide Describes, Coherent, Verdict;
    RecordedCoherent(s, f);
    CompleteCoherent(Recorded(s, f), f, sort);
    if f.key == k {
      RecordedDescribes(s, f, c);
      TestOutcome(Recorded(s, f), f, sort, c + [f]);
    } else {
      OtherKey(s, f, sort, k);
    }
    PruneCoherent(TryComplete(Recorded(s, f), f, sort).tab);
    hide TryComplete, Recorded, Prune;
  }

  /** In every run and for any fragments: the outcome of an accepted packet, read off the fragments
      accepted for its key since its node was made. */
  lemma OutcomeOfAny(maxFrags: nat, fs: seq<Fragment>, f: Fragment, sort: Sorter)
    requires Sorts(sort) && Accepted(Run(maxFrags, fs, sort), f)
    ensures
      var c := Collected(maxFrags, fs, sort, f.key) + [f];
      var out := Defrag(Run(maxFrags, fs, sort), f, sort).out;
      exists sorted :: multiset(sorted) == Extents(c) && SortedByOffset(sorted)
        && (out.Assembled? <==> HasFirst(c) && HasLast(c) && Walk(sorted, 0).Some? && (f.key.proto == 6 ==> HasHeader(c)))
        && (out.Assembled? ==> out.iplen == (Walk(sorted, 0).value + f.iphlen) % 0x1_0000)
  {
    hide Run, Collected, Coherent, Describes, Recorded, TryComplete, Defrag, Holds;
    var s := Run(maxFrags, fs, sort);
    var c := Collected(maxFrags, fs, sort, f.key);
    NodeIsCollected(maxFrags, fs, sort, f.key);
    RecordedDescribes(s, f, c);
    TestOutcome(Recorded(s, f), f, sort, c + [f]);
    DefragOut(s, f, sort);
  }

  // ---- statistics ----

  /** Packets of a run whose outcome satisfies a condition. */
  ghost function Outcomes(maxFrags: nat, fs: seq<Fragment>, sort: Sorter, what: Outcome -> bool): nat {
    if fs == [] then 0
    else
      var fs' := fs[..|fs| - 1];
      Outcomes(maxFrags, fs', sort, what)
      + if what(Defrag(Run(maxFrags, fs', sort), fs[|fs| - 1], sort).out) then 1 else 0
  }

  /** Accepted fragments that find no node of their key. */
  ghost function Opened(maxFrags: nat, fs: seq<Fragment>, sort: Sorter): nat {
    if fs == [] then 0
    else
      var s, f := Run(maxFrags, fs[..|fs| - 1], sort), fs[|fs| - 1];
      Opened(maxFrags, fs[..|fs| - 1], sort) + if Accepted(s, f) && f.key !in s.table then 1 else 0
  }

  /** The most nodes there ever were. */
  ghost function Most(maxFrags: nat, fs: seq<Fragment>, sort: Sorter): int {
    if fs == [] then 0
    else
      var s, f := Run(maxFrags, fs[..|fs| - 1], sort), fs[|fs| - 1];
      var m := Most(maxFrags, fs[..|fs| - 1], sort);
      var n := |s.fraq| + 1;
      if Accepted(s, f) && f.key !in s.table && n > m then n else m
  }

  /** Nodes held, completed or dropped: together the nodes ever made. */
  function Made(s: FragTab): int {
    s.count + s.stats.packets + s.stats.dropped
  }

  lemma PruneStats(s: FragTab)
    requires Coherent(s)
    ensures
      var t := Prune(s);
      && Made(t) == Made(s) && t.stats.packets == s.stats.packets
      && t.stats.frags == s.stats.frags && t.stats.seqrej == s.stats.seqrej && t.stats.peak == s.stats.peak
  {
  }

  lemma TestStats(s: FragTab, f: Fragment, sort: Sorter)
    requires f.key in s.table
    ensures
      var r := TryComplete(s, f, sort);
      && Made(r.tab) == Made(s)
      && r.tab.stats.packets == s.stats.packets + (if r.out.Assembled? then 1 else 0)
      && r.tab.stats.frags == s.stats.frags && r.tab.stats.seqrej == s.stats.seqrej && r.tab.stats.peak == s.stats.peak
      && (r.out.Held? || r.out.Assembled?)
  {
    hide Walk;
  }

  lemma RecordedStats(s: FragTab, f: Fragment)
    ensures
      var t, n := Recorded(s, f), s.count + 1;
      && Made(t) == Made(s) + (if f.key in s.table then 0 else 1)
      && t.stats.packets == s.stats.packets && t.stats.seqrej == s.stats.seqrej
      && t.stats.frags == s.stats.frags + 1
      && t.stats.peak == if f.key !in s.table && n > s.stats.peak then n else s.stats.peak
  {
  }

  lemma DefragStats(s: FragTab, f: Fragment, sort: Sorter)
    requires Coherent(s)
    ensures
      var r := Defrag(s, f, sort);
      var opens := Accepted(s, f) && f.key !in s.table;
      && Made(r.tab) == Made(s) + (if opens then 1 else 0)
      && r.tab.stats.packets == s.stats.packets + (if r.out.Assembled? then 1 else 0)
      && r.tab.stats.seqrej == s.stats.seqrej + (if r.out.Rejected? then 1 else 0)
      && r.tab.stats.frags == s.stats.frags + (if r.out.Held? || r.out.Assembled? then 1 else 0)
      && r.tab.stats.peak == (if opens && |s.fraq| + 1 > s.stats.peak then |s.fraq| + 1 else s.stats.peak)
  {
    if Accepted(s, f) {
      RecordedCoherent(s, f);
      CompleteCoherent(Recorded(s, f), f, sort);
      RecordedStats(s, f);
      TestStats(Recorded(s, f), f, sort);
      PruneStats(TryComplete(Recorded(s, f), f, sort).tab);
      hide TryComplete, Touch, Add, Prune, Made;
    }
  }

  /** In every run the statistics say what happened: fragments taken in, fragments rejected as out of
      order, datagrams assembled, and as dropped every node made that is neither assembled nor still
      there; the peak is the most nodes there ever were. */
  lemma {:induction false} StatsOfRun(maxFrags: nat, fs: seq<Fragment>, sort: Sorter)
    ensures
      var s := Run(maxFrags, fs, sort);
      && s.stats.frags == Outcomes(maxFrags, fs, sort, (o: Outcome) => o.Held? || o.Assembled?)
      && s.stats.seqrej == Outcomes(maxFrags, fs, sort, (o: Outcome) => o.Rejected?)
      && s.stats.packets == Outcomes(maxFrags, fs, sort, (o: Outcome) => o.Assembled?)
      && s.stats.dropped == Opened(maxFrags, fs, sort) - s.stats.packets - |s.fraq|
      && s.stats.peak == Most(maxFrags, fs, sort)
  {
    if fs != [] {
      hide Defrag, Accepted;
      StatsOfRun(maxFrags, fs[..|fs| - 1], sort);
      DefragStats(Run(maxFrags, fs[..|fs| - 1], sort), fs[|fs| - 1], sort);
    }
  }
}
