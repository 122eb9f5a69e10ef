/** Expiry in the flow table: scanning only the tail of the active queue finds exactly what
    a scan of the whole table would. */
module FlowExpiry {
  import opened FlowKeys
  import opened Segments
  import opened Queues
  import opened FlowMachine
  import opened FlowInvariant
  import opened FlowHistory
  import opened FlowRuns

  // ---- the tail-only scan ----

  /** Closing from the tail takes a prefix off the active queue. */
  lemma {:induction false} CloseTail(s: Tab, n: nat, why: EndReason)
    requires Structured(s) && n <= |s.aq|
    ensures CloseAll(s, s.aq[..n], why).aq == s.aq[n..]
    ensures CloseAll(s, s.aq[..n], why).ctime == s.ctime
    ensures CloseAll(s, s.aq[..n], why).count == s.count - n
    decreases n
  {
    if n > 0 {
      var k := s.aq[0];
      assert k in s.aq;
      var s' := Close(s, k, why);
      CloseStructured(s, k, why);
      assert Without(s.aq, k) == s.aq[1..];
      assert s.aq[..n][1..] == s'.aq[..n - 1];
      CloseTail(s', n - 1, why);
      assert s'.aq[n - 1..] == s.aq[n..];
    }
  }

  lemma {:induction false} CloseAllSnoc(s: Tab, ks: seq<FlowKey>, k: FlowKey, why: EndReason)
    ensures
      var t := CloseAll(s, ks, why);
      CloseAll(s, ks + [k], why) == if k in t.table then Close(t, k, why) else t
    decreases |ks|
  {
    if ks == [] {
      assert [k][1..] == [] && ks + [k] == [k];
    } else {
      CloseAllSnoc(if ks[0] in s.table then Close(s, ks[0], why) else s, ks[1..], k, why);
      assert (ks + [k])[1..] == ks[1..] + [k];
    }
  }

  /** If the least recent flow is not idle, no flow is. */
  lemma NoneIdle(cfg: Config, s: Tab, q: seq<FlowKey>)
    requires Recency(s.table, q) && (forall k :: k in q ==> k in s.table)
    requires q != [] ==> !IdleFlow(cfg, s, q[0])
    ensures IdleKeys(cfg, s, q) == []
  {
    forall k | k in q
      ensures !IdleFlow(cfg, s, k)
    {
      var i :| 0 <= i < |q| && q[i] == k;
      assert q[0] in q && s.table[q[0]].etime <= s.table[q[i]].etime;
    }
  }

  lemma IdleCons(cfg: Config, s: Tab, q: seq<FlowKey>)
    requires q != [] && IdleFlow(cfg, s, q[0])
    ensures IdleKeys(cfg, s, q) == [q[0]] + IdleKeys(cfg, s, q[1..])
  {
  }

  lemma RecencyTail(t: map<FlowKey, Flow>, q: seq<FlowKey>)
    requires Recency(t, q) && q != []
    ensures Recency(t, q[1..])
  {
  }

  /** Tail-only expiry equals a full scan: in a queue ordered by last activity, if the first
      n flows are idle and the next is not, the idle flows are exactly the first n. */
  lemma {:induction false} IdleIsPrefix(cfg: Config, s: Tab, q: seq<FlowKey>, n: nat)
    requires Recency(s.table, q) && n <= |q| && (forall k :: k in q ==> k in s.table)
    requires forall i :: 0 <= i < n ==> IdleFlow(cfg, s, q[i])
    requires n < |q| ==> !IdleFlow(cfg, s, q[n])
    ensures IdleKeys(cfg, s, q) == q[..n]
    decreases n
  {
    hide Recency, IdleFlow, IdleKeys;
    if n == 0 {
      NoneIdle(cfg, s, q);
    } else {
      var rest := q[1..];
      forall i | 0 <= i < n - 1
        ensures IdleFlow(cfg, s, rest[i])
      {
        assert rest[i] == q[i + 1];
      }
      TailKeys(s, q);
      RecencyTail(s.table, q);
      IdleCons(cfg, s, q);
      IdleIsPrefix(cfg, s, rest, n - 1);
      PrefixCons(q, n);
    }
  }

  lemma TailKeys(s: Tab, q: seq<FlowKey>)
    requires q != [] && forall k :: k in q ==> k in s.table
    ensures forall k :: k in q[1..] ==> k in s.table
  {
    assert forall k :: k in q[1..] ==> k in q;
  }

  lemma PrefixCons(q: seq<FlowKey>, n: nat)
    requires 0 < n <= |q|
    ensures q[..n] == [q[0]] + q[1..][..n - 1]
  {
  }

  lemma CloseNone(s: Tab, why: EndReason)
    ensures CloseAll(s, s.aq[..0], why) == s
  {
  }

  /** The table after the n least recent flows have been closed. */
  lemma TailFacts(cfg: Config, s0: Tab, n: nat, why: EndReason)
    requires Coherent(cfg, s0) && n <= |s0.aq| && why != Closed
    ensures
      var s := CloseAll(s0, s0.aq[..n], why);
      && Coherent(cfg, s) && s.aq == s0.aq[n..] && s.ctime == s0.ctime && s.count == s0.count - n
      && (n < |s0.aq| ==> s0.aq[n] in s0.table && s.aq[0] in s.table && s.table[s.aq[0]] == s0.table[s0.aq[n]])
  {
    hide CloseAll, Coherent, Close;
    CoherentQueue(cfg, s0);
    CloseTail(s0, n, why);
    CloseAllCoherent(cfg, s0, s0.aq[..n], why);
    if n < |s0.aq| {
      var k := s0.aq[n];
      assert k in s0.aq;
      CloseAllTable(s0, s0.aq[..n], why, k);
    }
  }

  lemma CoherentQueue(cfg: Config, s: Tab)
    requires Coherent(cfg, s)
    ensures Structured(s) && Distinct(s.aq)
    ensures forall k :: k in s.aq <==> k in s.table
  {
  }

  /** One more turn of a loop that closes the tail of the active queue. */
  lemma TailStep(cfg: Config, s0: Tab, n: nat, why: EndReason)
    requires Coherent(cfg, s0) && n < |s0.aq| && why != Closed
    ensures
      var s := CloseAll(s0, s0.aq[..n], why);
      && s.aq != [] && s.aq[0] in s.table
      && CloseAll(s0, s0.aq[..n + 1], why) == Close(s, s.aq[0], why)
  {
    hide CloseAll, Coherent, Close;
    TailFacts(cfg, s0, n, why);
    CloseAllSnoc(s0, s0.aq[..n], s0.aq[n], why);
    assert s0.aq[..n] + [s0.aq[n]] == s0.aq[..n + 1];
  }

  lemma TailStop(cfg: Config, s0: Tab, n: nat)
    requires Coherent(cfg, s0) && n <= |s0.aq|
    requires forall i :: 0 <= i < n ==> IdleFlow(cfg, s0, s0.aq[i])
    requires n < |s0.aq| ==> s0.aq[n] in s0.table && s0.ctime - s0.table[s0.aq[n]].etime <= cfg.idleMs
    ensures IdleKeys(cfg, s0, s0.aq) == s0.aq[..n]
  {
    IdleIsPrefix(cfg, s0, s0.aq, n);
  }

  /** The expiry loops keep a flow exactly when it is not idle and not among the least recent
      flows that bring the count under the limit. */
  lemma ExpiryIsFullScan(cfg: Config, s: Tab, k: FlowKey)
    requires Coherent(cfg, s)
    ensures
      var s1 := CloseAll(s, IdleKeys(cfg, s, s.aq), Idle);
      var s2 := Expire(cfg, s, false);
      && (k in s1.table <==> k in s.table && s.ctime - s.table[k].etime <= cfg.idleMs)
      && (k in s2.table <==> k in s1.table && k !in ExcessKeys(cfg, s1))
      && (k in ExcessKeys(cfg, s1) ==> k in s1.table)
      && (k in ExcessKeys(cfg, s1) ==>
            forall y :: y in s2.table ==> s1.table[k].etime <= s2.table[y].etime)
      && |s2.aq| == (if cfg.maxFlows == 0 then |s1.aq| else Min(|s1.aq|, cfg.maxFlows - 1))
  {
    var s1 := CloseAll(s, IdleKeys(cfg, s, s.aq), Idle);
    var s2 := Expire(cfg, s, false);
    CoherentQueue(cfg, s);
    CloseAllTable(s, IdleKeys(cfg, s, s.aq), Idle, k);
    CloseAllCoherent(cfg, s, IdleKeys(cfg, s, s.aq), Idle);
    CoherentQueue(cfg, s1);
    CloseAllTable(s1, ExcessKeys(cfg, s1), Resource, k);
    ExcessIsTail(cfg, s1);
    var n := |ExcessKeys(cfg, s1)|;
    TailFacts(cfg, s1, n, Resource);
    if k in ExcessKeys(cfg, s1) {
      forall y | y in s2.table
        ensures s1.table[k].etime <= s2.table[y].etime
      {
        CloseAllTable(s1, ExcessKeys(cfg, s1), Resource, y);
        TailIsOlder(s1, n, k, y);
      }
    }
  }

  // ---- when a flush call scans, and what is then left ----

  /** A flush call scans the table when it closes it, is the first, comes at least five seconds
      after the last scan, or finds 2500 flows waiting for export. */
  predicate Due(s: Tab, close: bool) {
    close || s.flushTime == 0 || s.ctime >= s.flushTime + 5000 || s.cqCount >= 2500
  }

  /** A call that is not due changes nothing; one that is due notes the time and counts itself. */
  lemma FlushWhenDue(cfg: Config, s: Tab, close: bool, room: nat)
    ensures
      var r := FlushStep(cfg, s, close, room);
      if Due(s, close) then
        && r.tab.flushTime == s.ctime && r.tab.stats.flush == s.stats.flush + 1
        && r == Drain(cfg, Expire(cfg, BeginFlush(s), close), room)
      else r == Flushed(s, true)
  {
    hide Drain, CloseAll;
    if Due(s, close) {
      var s0 := BeginFlush(s);
      var s1 := CloseAll(s0, IdleKeys(cfg, s0, s0.aq), Idle);
      CloseAllFlushTime(s0, IdleKeys(cfg, s0, s0.aq), Idle);
      CloseAllFlushTime(s1, ExcessKeys(cfg, s1), Resource);
      var s2 := CloseAll(s1, ExcessKeys(cfg, s1), Resource);
      CloseAllFlushTime(s2, s2.aq, Forced);
      DrainFlushTime(cfg, Expire(cfg, s0, close), room);
    }
  }

  lemma {:induction false} CloseAllFlushTime(s: Tab, ks: seq<FlowKey>, why: EndReason)
    ensures
      var s' := CloseAll(s, ks, why);
      s'.flushTime == s.flushTime && s'.stats == s.stats
    decreases |ks|
  {
    if ks != [] {
      CloseAllFlushTime(if ks[0] in s.table then Close(s, ks[0], why) else s, ks[1..], why);
    }
  }

  lemma {:induction false} DrainFlushTime(cfg: Config, s: Tab, room: nat)
    ensures
      var s' := Drain(cfg, s, room).tab;
      s'.flushTime == s.flushTime && s'.stats.flush == s.stats.flush
    decreases |s.cq|
  {
    hide Exports;
    if s.cq != [] {
      var n := |Exports(cfg, s.cq[0])|;
      if room >= n {
        DrainSmaller(cfg, s, room);
        DrainFlushTime(cfg, Emit(cfg, s, room), room - n);
      }
    }
  }

  /** No active flow was idle at the last scan. */
  ghost predicate Scanned(cfg: Config, s: Tab) {
    && s.flushTime <= s.ctime
    && forall k :: k in s.table ==> s.flushTime - s.table[k].etime <= cfg.idleMs
  }

  lemma PlaceEntry(cfg: Config, s: Tab, p: Packet, x: FlowKey)
    ensures
      var t := Place(cfg, s, p);
      && t.flushTime == s.flushTime
      && (x in t.table ==> (x in s.table && t.table[x] == s.table[x]) || t.table[x].etime == s.ctime)
  {
    hide Find, Conv, Canon, Outlived, Without;
  }

  lemma AbsorbEntry(s: Tab, p: Packet, x: FlowKey)
    requires Find(s.table, p.key).At? && s.table[Find(s.table, p.key).k].stime <= p.ptime
    ensures
      var t := Absorb(s, p);
      && t.flushTime == s.flushTime
      && (x in t.table ==> (x in s.table && t.table[x] == s.table[x]) || t.table[x].etime == p.ptime)
  {
    hide Find, Conv, Canon, Finished, Without, Count, TcpStep;
  }

  lemma PacketScanned(cfg: Config, s: Tab, p: Packet)
    requires Coherent(cfg, s) && Scanned(cfg, s)
    ensures Scanned(cfg, PacketStep(cfg, s, p))
  {
    StepClock(cfg, s, p);
    if s.ctime <= p.ptime {
      hide Place, Absorb, Find, Coherent;
      var s1 := Accept(s, p);
      AcceptCoherent(cfg, s, p);
      PlaceIsFound(cfg, s1, p);
      var s2 := Place(cfg, s1, p);
      var s3 := Absorb(s2, p);
      PlaceEntry(cfg, s1, p, p.key);
      AbsorbEntry(s2, p, p.key);
      forall k | k in s3.table
        ensures s3.flushTime - s3.table[k].etime <= cfg.idleMs
      {
        PlaceEntry(cfg, s1, p, k);
        AbsorbEntry(s2, p, k);
      }
    }
  }

  lemma FlushScanned(cfg: Config, s: Tab, close: bool, room: nat)
    requires Coherent(cfg, s) && Scanned(cfg, s)
    ensures Scanned(cfg, FlushStep(cfg, s, close, room).tab)
  {
    hide FlushStep, Drain, Expire, Coherent;
    var s' := FlushStep(cfg, s, close, room).tab;
    FlushWhenDue(cfg, s, close, room);
    FlushClock(cfg, s, close, room);
    if Due(s, close) {
      forall k | k in s'.table
        ensures s.ctime - s'.table[k].etime <= cfg.idleMs
      {
        DueFlush(cfg, s, close, room, k);
      }
    }
  }

  /** A scan leaves no idle flow. */
  lemma DueFlush(cfg: Config, s: Tab, close: bool, room: nat, k: FlowKey)
    requires Coherent(cfg, s) && Due(s, close) && k in FlushStep(cfg, s, close, room).tab.table
    ensures s.ctime - FlushStep(cfg, s, close, room).tab.table[k].etime <= cfg.idleMs
  {
    hide Drain, CloseAll, Coherent, FlushStep;
    var s0 := BeginFlush(s);
    BeginCoherent(cfg, s);
    CoherentQueue(cfg, s0);
    FlushWhenDue(cfg, s, close, room);
    DrainHistories(cfg, Expire(cfg, s0, close), room, k);
    var s1 := CloseAll(s0, IdleKeys(cfg, s0, s0.aq), Idle);
    CloseAllTable(s0, IdleKeys(cfg, s0, s0.aq), Idle, k);
    var s2 := CloseAll(s1, ExcessKeys(cfg, s1), Resource);
    CloseAllTable(s1, ExcessKeys(cfg, s1), Resource, k);
    CloseAllTable(s2, s2.aq, Forced, k);
  }

  lemma {:induction false} RunScanned(cfg: Config, es: seq<Event>)
    ensures Scanned(cfg, Run(cfg, es))
  {
    if es != [] {
      hide PacketStep, FlushStep, Coherent, Scanned;
      var s := Run(cfg, es[..|es| - 1]);
      RunScanned(cfg, es[..|es| - 1]);
      match es[|es| - 1]
      case Arrive(p) => PacketScanned(cfg, s, p);
      case Flush(close, room) => FlushScanned(cfg, s, close, room);
    }
  }

  /** In every run, after every flush call no active flow has been idle for longer than idle_ms if
      the call was due, and for less than five seconds more if it was not. */
  lemma FlushedIsFresh(cfg: Config, es: seq<Event>, close: bool, room: nat, k: FlowKey)
    requires k in FlushStep(cfg, Run(cfg, es), close, room).tab.table
    ensures
      var s := Run(cfg, es);
      var rest := s.ctime - FlushStep(cfg, s, close, room).tab.table[k].etime;
      if Due(s, close) then rest <= cfg.idleMs else rest < cfg.idleMs + 5000
  {
    hide FlushStep, Run, Coherent;
    var s := Run(cfg, es);
    RunScanned(cfg, es);
    FlushWhenDue(cfg, s, close, room);
    if Due(s, close) {
      DueFlush(cfg, s, close, room, k);
    }
  }

  /** A whole flush call that is due and not closing, whatever the output accepts: a flow stays
      active exactly when it has not been idle for longer than idle_ms and is not among the least
      recent of those that bring the count under the limit. */
  lemma FlushIsFullScan(cfg: Config, s: Tab, room: nat, k: FlowKey)
    requires Coherent(cfg, s)
    requires s.flushTime == 0 || s.ctime >= s.flushTime + 5000 || s.cqCount >= 2500
    ensures
      var s1 := CloseAll(BeginFlush(s), IdleKeys(cfg, BeginFlush(s), s.aq), Idle);
      var s2 := FlushStep(cfg, s, false, room).tab;
      && (k in s1.table <==> k in s.table && s.ctime - s.table[k].etime <= cfg.idleMs)
      && (k in s2.table <==> k in s1.table && k !in ExcessKeys(cfg, s1))
      && (k in ExcessKeys(cfg, s1) ==> k in s1.table)
      && (k in ExcessKeys(cfg, s1) ==>
            forall y :: y in s2.table ==> s1.table[k].etime <= s2.table[y].etime)
      && s2.count == |s2.table| == (if cfg.maxFlows == 0 then |s1.table| else Min(|s1.table|, cfg.maxFlows - 1))
  {
    hide Drain, Expire, CloseAll, IdleKeys, ExcessKeys, Coherent;
    var s0 := BeginFlush(s);
    BeginCoherent(cfg, s);
    ExpiryIsFullScan(cfg, s0, k);
    ExpireCoherent(cfg, s0, false);
    DrainHistories(cfg, Expire(cfg, s0, false), room, k);
    DrainCoherent(cfg, Expire(cfg, s0, false), room);
    CloseAllCoherent(cfg, s0, IdleKeys(cfg, s0, s0.aq), Idle);
    TableSize(cfg, Expire(cfg, s0, false));
    TableSize(cfg, FlushStep(cfg, s, false, room).tab);
    TableSize(cfg, CloseAll(s0, IdleKeys(cfg, s0, s0.aq), Idle));
  }

  lemma TableSize(cfg: Config, s: Tab)
    requires Coherent(cfg, s)
    ensures |s.table| == |s.aq| == s.count
  {
    assert Distinct(s.aq) && forall k :: k in s.aq <==> k in s.table.Keys;
    hide Coherent, Structured, AllLive, AllEnded, Distinct;
    DistinctSize(s.aq, s.table.Keys);
  }

  lemma {:induction false} DistinctSize(q: seq<FlowKey>, x: set<FlowKey>)
    requires Distinct(q) && forall k :: k in q <==> k in x
    ensures |q| == |x|
  {
    if q == [] {
      assert x == {};
    } else {
      var r := q[1..];
      forall k
        ensures k in r <==> k in x - {q[0]}
      {
        if k in r {
          var i :| 0 <= i < |r| && r[i] == k;
          assert q[i + 1] == k;
        }
        if k in x && k != q[0] {
          var i :| 0 <= i < |q| && q[i] == k;
          assert r[i - 1] == k;
        }
      }
      DistinctSize(r, x - {q[0]});
    }
  }

  lemma ExcessIsTail(cfg: Config, s: Tab)
    requires Coherent(cfg, s)
    ensures
      var n := |ExcessKeys(cfg, s)|;
      && n <= |s.aq| && ExcessKeys(cfg, s) == s.aq[..n]
      && |s.aq| - n == if cfg.maxFlows == 0 then |s.aq| else Min(|s.aq|, cfg.maxFlows - 1)
  {
  }

  lemma TailIsOlder(s: Tab, n: nat, x: FlowKey, y: FlowKey)
    requires Structured(s) && n <= |s.aq| && x in s.aq[..n] && y in s.table && y !in s.aq[..n]
    ensures x in s.table && s.table[x].etime <= s.table[y].etime
  {
    var i :| 0 <= i < n && s.aq[i] == x;
    assert x in s.aq && y in s.aq;
    var j :| 0 <= j < |s.aq| && s.aq[j] == y;
    assert j >= n;
  }
}
