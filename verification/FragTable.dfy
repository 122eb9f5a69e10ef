/** The fragment table itself (src/yafrag.c): an object whose methods update the node index,
    the recency queue and the one-slot assembled buffer in place. */
module FragTable {
  import opened FlowKeys
  import opened FragSpec
  import opened Queues
  import opened FragMachine
  import opened FragRuns

  /** Traverse sorted records: the end of the last one, unless there is a gap. */
  method Traverse(rs: seq<FragRec>) returns (end: Option<nat>)
    ensures end == Walk(rs, 0)
  {
    var next: nat := 0;
    var i := 0;
    while i < |rs|
      invariant 0 <= i <= |rs|
      invariant Walk(rs, 0) == Walk(rs[i..], next)
    {
      if rs[i].off > next {
        return None;
      }
      next := rs[i].off + rs[i].len;
      assert rs[i..][1..] == rs[i + 1..];
      i := i + 1;
    }
    return Some(next);
  }

  class Table {
    const maxFrags: nat
    var ctime: nat
    var pruneTime: nat
    var table: map<FragKey, FragNode>
    var fraq: seq<FragKey>
    var count: int
    var stats: FragStats
    /** IP length of the assembled datagram, if one is waiting to be taken. */
    var assembled: Option<u16>

    ghost function State(): FragTab
      reads this
    {
      FragTab(ctime, pruneTime, maxFrags, table, fraq, count, stats)
    }

    ghost predicate Valid()
      reads this
    {
      Coherent(State())
    }

    constructor (maxFrags: nat)
      ensures Valid() && assembled == None && State() == EmptyTab(maxFrags)
    {
      this.maxFrags := maxFrags;
      ctime, pruneTime, count := 0, 0, 0;
      table, fraq := map[], [];
      stats := FragStats(0, 0, 0, 0, 0);
      assembled := None;
    }

    /** Find or create the node of a key and move it to the queue head. */
    method GetNode(k: FragKey)
      modifies this`table, this`fraq, this`count, this`stats
      ensures State() == Touch(old(State()), k) && k in table
    {
      if k in table {
        fraq := Without(fraq, k);
        fraq := fraq + [k];
        table := table[k := table[k].(lastCtime := ctime)];
        return;
      }
      var n := FragNode(ctime, false, false, false, []);
      fraq := fraq + [k];
      table := table[k := n];
      count := count + 1;
      if count > stats.peak {
        stats := stats.(peak := count);
      }
    }

    /** Append a record and note the first and last fragment. */
    method AddFragment(f: Fragment)
      requires f.key in table
      modifies this`table, this`stats
      ensures State() == Add(old(State()), f)
    {
      var n := table[f.key];
      if f.off == 0 && f.l4hlen != 0 {
        n := n.(haveL4 := true);
      }
      n := n.(records := n.records + [RecordOf(f)]);
      if f.off == 0 {
        n := n.(haveFirst := true);
      }
      if !f.more {
        n := n.(haveLast := true);
      }
      table := table[f.key := n];
      stats := stats.(frags := stats.frags + 1);
    }

    method RemoveNode(k: FragKey, drop: bool)
      modifies this`table, this`fraq, this`count, this`stats
      ensures State() == Remove(old(State()), k, drop)
    {
      table := table - {k};
      fraq := Without(fraq, k);
      count := count - 1;
      if drop {
        stats := stats.(dropped := stats.dropped + 1);
      } else {
        stats := stats.(packets := stats.packets + 1);
      }
    }

    /** The completion test; a completed datagram goes to the assembled slot. */
    method CompleteNode(f: Fragment, sort: Sorter)
      requires f.key in table && assembled == None
      modifies this`table, this`fraq, this`count, this`stats, this`assembled
      ensures State() == TryComplete(old(State()), f, sort).tab
      ensures assembled == match TryComplete(old(State()), f, sort).out
                             case Assembled(iplen) => Some(iplen)
                             case _ => None
    {
      var n := table[f.key];
      if !n.haveFirst || !n.haveLast {
        return;
      }
      var sorted := sort(n.records);
      table := table[f.key := n.(records := sorted)];
      var end := Traverse(sorted);
      if end == None {
        return;
      }
      if !n.haveL4 && f.key.proto == PROTO_TCP {
        RemoveNode(f.key, true);
        return;
      }
      RemoveNode(f.key, false);
      assembled := Some((end.value + f.iphlen) % 0x1_0000);
    }

    /** Drop nodes from the tail while the table is at its limit. */
    method DropExcess()
      requires Valid()
      modifies this`table, this`fraq, this`count, this`stats
      ensures Valid() && State() == DropTail(old(State()), Excess(old(State())))
    {
      hide Coherent, DropTail, Remove;
      ghost var s0 := State();
      ghost var n := 0;
      TailFacts(s0, 0);
      while maxFrags != 0 && fraq != [] && count >= maxFrags
        invariant n <= |s0.fraq| && State() == DropTail(s0, n) && Valid()
        invariant s0.count == |s0.fraq| && fraq == s0.fraq[n..] && count == s0.count - n
        invariant n == 0 || (maxFrags != 0 && s0.count - n >= maxFrags - 1)
        decreases |fraq|
      {
        TailStep(s0, n);
        TailFacts(s0, n + 1);
        RemoveNode(fraq[0], true);
        n := n + 1;
      }
      assert n == Excess(s0);
    }

    /** Drop expired nodes, looking only at the tail of the queue. */
    method DropExpired()
      requires Valid()
      modifies this`table, this`fraq, this`count, this`stats
      ensures Valid() && State() == DropStale(old(State()))
    {
      hide Coherent, DropTail, DropStale, Remove, FreshKeys, Without;
      ghost var s0 := State();
      ghost var m := StalePrefix(s0);
      ghost var n := 0;
      TailFacts(s0, 0);
      while fraq != [] && ctime - table[fraq[0]].lastCtime > FRAG_TIMEOUT
        invariant n <= m <= |s0.fraq| && State() == DropTail(s0, n) && Valid()
        invariant fraq == s0.fraq[n..] && ctime == s0.ctime
        invariant fraq != [] ==> fraq[0] in table && s0.fraq[n] in s0.table && table[fraq[0]] == s0.table[s0.fraq[n]]
        decreases |fraq|
      {
        assert Stale(s0, s0.fraq[n]);
        NextTail(s0, n);
        RemoveNode(fraq[0], true);
        n := n + 1;
      }
      assert n == m;
    }

    /** Drop limited and expired nodes, at most once per delay (yfFragQueuePrune). */
    method PruneQueue()
      requires Valid()
      modifies this`table, this`fraq, this`count, this`stats, this`pruneTime
      ensures Valid() && State() == Prune(old(State()))
    {
      if pruneTime != 0 && ctime < pruneTime + PRUNE_DELAY {
        return;
      }
      pruneTime := ctime;
      hide DropTail, DropStale;
      DropExcess();
      DropExpired();
    }

    /** One packet (yfDefragPBuf). */
    method DefragPBuf(f: Fragment, sort: Sorter) returns (out: Outcome)
      requires Valid() && assembled == None
      modifies this
      ensures Valid() && assembled == None
      ensures Stepped(State(), out) == Defrag(old(State()), f, sort)
    {
      hide Touch, Add, TryComplete, Prune, Coherent;
      ghost var s0 := State();
      DefragCoherent(s0, f, sort);
      if !f.frag {
        return Passed;
      }
      if f.ptime < ctime {
        stats := stats.(seqrej := stats.seqrej + 1);
        return Rejected;
      }
      RecordedCoherent(s0, f);
      ctime := f.ptime;
      GetNode(f.key);
      AddFragment(f);
      CompleteCoherent(State(), f, sort);
      OnlyTwoOutcomes(State(), f, sort);
      CompleteNode(f, sort);
      PruneQueue();
      if assembled == None {
        return Held;
      }
      out := Assembled(assembled.value);
      assembled := None;
    }
  }

  lemma OnlyTwoOutcomes(s: FragTab, f: Fragment, sort: Sorter)
    requires f.key in s.table
    ensures TryComplete(s, f, sort).out.Held? || TryComplete(s, f, sort).out.Assembled?
  {
  }

  /** The table after the n least recent nodes have been dropped. */
  lemma TailFacts(s0: FragTab, n: nat)
    requires Coherent(s0) && n <= |s0.fraq|
    ensures
      var s := DropTail(s0, n);
      && Coherent(s) && s0.count == |s0.fraq| && s.fraq == s0.fraq[n..] && s.count == s0.count - n
      && s.ctime == s0.ctime && s.maxFrags == s0.maxFrags
      && (n == 0 ==> s == s0)
      && (n < |s0.fraq| ==> s0.fraq[n] in s0.table && s.fraq[0] in s.table && s.table[s.fraq[0]] == s0.table[s0.fraq[n]])
  {
    DropTailCoherent(s0, n);
    var s := DropTail(s0, n);
    if n == 0 {
      assert s0.fraq[..0] == [];
      assert s.table == s0.table && s.fraq == s0.fraq;
    }
    if n < |s0.fraq| {
      assert s.fraq[0] == s0.fraq[n];
      assert s0.fraq[n] in s0.fraq && s.fraq[0] in s.fraq;
    }
  }

  /** One turn of a loop that drops the tail. */
  lemma NextTail(s0: FragTab, n: nat)
    requires Coherent(s0) && n < |s0.fraq|
    ensures
      var s, t := DropTail(s0, n), DropTail(s0, n + 1);
      && s.fraq != [] && Remove(s, s.fraq[0], true) == t
      && Coherent(t) && t.fraq == s0.fraq[n + 1..] && t.ctime == s0.ctime
      && (n + 1 < |s0.fraq| ==> s0.fraq[n + 1] in s0.table && t.fraq[0] in t.table && t.table[t.fraq[0]] == s0.table[s0.fraq[n + 1]])
  {
    hide Coherent, DropTail, Remove;
    TailStep(s0, n);
    TailFacts(s0, n + 1);
  }

  /** Dropping the tail node once more. */
  lemma TailStep(s0: FragTab, n: nat)
    requires Coherent(s0) && n < |s0.fraq|
    ensures
      var s := DropTail(s0, n);
      s.fraq != [] && Remove(s, s.fraq[0], true) == DropTail(s0, n + 1)
  {
    var s := DropTail(s0, n);
    var k := s0.fraq[n];
    assert s.fraq[0] == k;
    assert Without(s.fraq, k) == s0.fraq[n + 1..];
    assert s0.fraq[..n + 1] == s0.fraq[..n] + [k];
    assert s.table - {k} == s0.table - Members(s0.fraq[..n + 1]);
  }
}
