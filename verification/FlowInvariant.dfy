/** What every step of the flow table keeps: the key index, the two queues, the counters
    and the contents of every flow stay consistent with each other. */
module FlowInvariant {
  import opened Widths
  import opened FlowKeys
  import opened Segments
  import opened Queues
  import opened FlowMachine

  // ---- the invariant, part by part ----

  /** Flows are indexed by their own key, and no two by equal or mutually reversed keys. */
  ghost predicate Indexed(t: map<FlowKey, Flow>) {
    && (forall k :: k in t ==> Canon(t[k].key) == k)
    && (forall k, k' :: k in t && k' in t && Conv(k) == Conv(k') ==> k == k')
  }

  /** The active queue lists exactly the indexed flows, once each. */
  ghost predicate Queued(t: map<FlowKey, Flow>, aq: seq<FlowKey>) {
    && Distinct(aq)
    && (forall k :: k in aq <==> k in t)
  }

  /** The active queue is in order of last activity. */
  ghost predicate Recency(t: map<FlowKey, Flow>, aq: seq<FlowKey>) {
    forall i, j :: 0 <= i <= j < |aq| && aq[i] in t && aq[j] in t ==> t[aq[i]].etime <= t[aq[j]].etime
  }

  /** State bits are what the packet history says. */
  ghost predicate StateOk(f: Flow)
    requires f.hist != []
  {
    if f.key.proto == PROTO_TCP then
      && (f.state.ffin <==> HasFin(f.hist, false))
      && (f.state.rfin <==> HasFin(f.hist, true))
      && (f.state.ffinack <==> AckedFin(f.hist, false))
      && (f.state.rfinack <==> AckedFin(f.hist, true))
      && (f.state.rst <==> HasRst(f.hist))
    else f.state == NoState
  }

  /** A node's fields are the summary of an unbroken segment, namely its history. */
  ghost predicate Legit(cfg: Config, f: Flow) {
    && Unbroken(cfg, f.hist)
    && ToRecord(f) == Summarize(f.hist)
    && StateOk(f)
  }

  /** A flow that has ended: marked CLOSED exactly when its history ends the connection. */
  ghost predicate Ended(cfg: Config, f: Flow) {
    && Legit(cfg, f)
    && (f.reason == Closed <==> HistoryClosed(f.hist))
  }

  ghost predicate Live(cfg: Config, f: Flow) {
    Legit(cfg, f) && !Finished(f.state)
  }

  ghost predicate AllEnded(cfg: Config, fs: seq<Flow>) {
    forall i :: 0 <= i < |fs| ==> Ended(cfg, fs[i])
  }

  /** Index, active queue and flow count agree. */
  ghost predicate Structured(s: Tab) {
    && Indexed(s.table)
    && Queued(s.table, s.aq)
    && Recency(s.table, s.aq)
    && Timely(s)
    && s.count == |s.aq|
  }

  ghost predicate AllLive(cfg: Config, t: map<FlowKey, Flow>) {
    forall k :: k in t ==> Live(cfg, t[k])
  }

  ghost predicate Coherent(cfg: Config, s: Tab) {
    && Structured(s)
    && s.cqCount == |s.cq|
    && AllLive(cfg, s.table)
    && AllEnded(cfg, s.cq) && AllEnded(cfg, s.freed)
  }

  // ---- queue contents without a node ----

  lemma WithoutSorted(t: map<FlowKey, Flow>, q: seq<FlowKey>, x: FlowKey)
    requires Recency(t, q)
    ensures Recency(t, Without(q, x))
  {
    WithoutPairwise(q, x, (a, b) => a in t && b in t ==> t[a].etime <= t[b].etime);
  }

  // ---- a node absorbs a packet ----

  lemma FinishedIsHistory(f: Flow)
    requires f.hist != [] && StateOk(f) && f.key.proto == f.hist[0].key.proto
    ensures Finished(f.state) <==> HistoryClosed(f.hist)
  {
  }

  /** The two timeout tests of the code are together the break rule of segments. */
  lemma BreakIsTimeout(cfg: Config, f: Flow, p: Packet, back: bool)
    requires Live(cfg, f) && back == Backward(f.hist, p)
    ensures Breaks(cfg, f.hist, p) <==> Outlived(cfg, f, p, back) || p.ptime - f.etime > cfg.idleMs
  {
    FinishedIsHistory(f);
  }

  lemma AccountLegit(cfg: Config, f: Flow, p: Packet, back: bool)
    requires Legit(cfg, f) && f.etime <= p.ptime
    requires Conv(p.key) == Conv(f.key) && back == (Canon(p.key) != Canon(f.key))
    requires !Breaks(cfg, f.hist, p)
    ensures f.stime <= p.ptime
    ensures Legit(cfg, Account(f, p, back))
  {
    hide Unbroken, Ordered, StateOk, Summarize, Breaks, Conv, Canon, Count, ToInt, TcpStep;
    LegitSummary(cfg, f);
    SummaryGrow(f.hist, p);
    GrowUnbroken(cfg, f, p);
    AccountState(f, p, back);
  }

  /** The summary of a legitimate node, field by field. */
  lemma LegitSummary(cfg: Config, f: Flow)
    requires Legit(cfg, f)
    ensures f.hist != [] && Ordered(f.hist) && f.key == f.hist[0].key
    ensures f.stime == f.hist[0].ptime <= f.etime == f.hist[|f.hist| - 1].ptime
    ensures
      var r := Summarize(f.hist);
      r.key == f.key && r.stime == f.stime && r.etime == f.etime && r.rdtime == f.rdtime && r.val == f.val && r.rval == f.rval
  {
    hide Breaks, StateOk, Conv;
    assert f.hist[0].ptime <= f.hist[|f.hist| - 1].ptime;
  }

  lemma GrowUnbroken(cfg: Config, f: Flow, p: Packet)
    requires Legit(cfg, f) && f.etime <= p.ptime && Conv(p.key) == Conv(f.key) && !Breaks(cfg, f.hist, p)
    ensures Unbroken(cfg, f.hist + [p])
  {
    hide Unbroken, Breaks, StateOk, Conv, Summarize;
    LegitSummary(cfg, f);
    UnbrokenGrow(cfg, f.hist, p);
  }

  lemma AccountState(f: Flow, p: Packet, back: bool)
    requires f.hist != [] && StateOk(f) && f.stime <= p.ptime
    requires back == Backward(f.hist, p)
    ensures StateOk(Account(f, p, back))
  {
    FinGrow(f.hist, p, false);
    FinGrow(f.hist, p, true);
    AckGrow(f.hist, p, false);
    AckGrow(f.hist, p, true);
    RstGrow(f.hist, p);
  }

  lemma FirstPacketLegit(cfg: Config, p: Packet, fid: nat, cont: bool)
    ensures Legit(cfg, Account(NewFlow(p.key, fid, p.ptime, cont), p, false))
  {
    var f := Account(NewFlow(p.key, fid, p.ptime, cont), p, false);
    assert f.hist == [p];
    assert Traffic([p], 1, false) == Count(Traffic([p], 0, false), p);
    assert Traffic([p], 1, true) == Traffic([p], 0, true);
    assert ReverseDelay([p], 1) == ReverseDelay([p], 0);
    UnbrokenSingle(cfg, p);
    assert [p][0] == p;
  }

  // ---- closing ----

  /** The active queue after a node has been picked out of it. */
  lemma PickedQueue(t: map<FlowKey, Flow>, q: seq<FlowKey>, k: FlowKey)
    requires Distinct(q) && Recency(t, q)
    requires forall x :: x in q || x == k <==> x in t
    ensures Queued(t - {k}, Without(q, k)) && Recency(t - {k}, Without(q, k))
    ensures |Without(q, k)| == |q| - (if k in q then 1 else 0)
  {
    WithoutDistinct(q, k);
    WithoutSorted(t, q, k);
    var r := Without(q, k);
    forall i, j | 0 <= i <= j < |r| && r[i] in t - {k} && r[j] in t - {k}
      ensures (t - {k})[r[i]].etime <= (t - {k})[r[j]].etime
    {
      assert t[r[i]].etime <= t[r[j]].etime;
    }
  }

  lemma CloseStructured(s: Tab, k: FlowKey, why: EndReason)
    requires Structured(s) && k in s.table
    ensures Structured(Close(s, k, why))
  {
    PickedQueue(s.table, s.aq, k);
  }

  /** Putting an ended flow at the end of a list of ended flows. */
  lemma EndedAppend(cfg: Config, fs: seq<Flow>, f: Flow, why: EndReason)
    requires AllEnded(cfg, fs) && Legit(cfg, f) && (why == Closed <==> Finished(f.state))
    ensures AllEnded(cfg, fs + [f.(reason := why)])
  {
    FinishedIsHistory(f);
    var g := f.(reason := why);
    assert Ended(cfg, g);
    var r := fs + [g];
    forall i | 0 <= i < |r|
      ensures Ended(cfg, r[i])
    {
      if i < |fs| {
        assert r[i] == fs[i];
      }
    }
  }

  lemma CloseCoherent(cfg: Config, s: Tab, k: FlowKey, why: EndReason)
    requires Coherent(cfg, s) && k in s.table && why != Closed
    ensures Coherent(cfg, Close(s, k, why))
  {
    CloseStructured(s, k, why);
    EndedAppend(cfg, s.cq, s.table[k], why);
  }

  // ---- a packet settles into a node ----

  /** Absorb, with the node found and its new contents made explicit. */
  function Settle(s: Tab, k: FlowKey, f: Flow): Tab {
    var s1 := s.(table := s.table[k := f]);
    if Finished(f.state) then Close(s1, k, Closed) else Tick(s1, k)
  }

  /** Structured, except that node k is indexed and counted but perhaps not yet queued. */
  ghost predicate StructuredBut(s: Tab, k: FlowKey) {
    && k in s.table
    && Indexed(s.table)
    && Distinct(s.aq) && (forall x :: x in s.aq || x == k <==> x in s.table)
    && Recency(s.table, s.aq)
    && Timely(s)
    && s.count == |s.aq| + (if k in s.aq then 0 else 1)
  }

  lemma UpdateThenRemove<K, V>(m: map<K, V>, k: K, v: V)
    ensures m[k := v] - {k} == m - {k}
  {
  }

  lemma SettleClosed(s: Tab, k: FlowKey, f: Flow)
    requires StructuredBut(s, k) && Finished(f.state)
    ensures Structured(Settle(s, k, f))
    ensures Settle(s, k, f).table == s.table - {k}
  {
    UpdateThenRemove(s.table, k, f);
    PickedQueue(s.table, s.aq, k);
  }

  /** Moving a just-active node to the head keeps the queue distinct and in order. */
  lemma TickQueue(t: map<FlowKey, Flow>, q: seq<FlowKey>, k: FlowKey, f: Flow)
    requires Distinct(q) && Recency(t, q)
    requires forall x :: x in q ==> x in t && t[x].etime <= f.etime
    ensures Distinct(Without(q, k) + [k]) && Recency(t[k := f], Without(q, k) + [k])
  {
    WithoutDistinct(q, k);
    WithoutSorted(t, q, k);
    var r := Without(q, k);
    forall i | 0 <= i < |r|
      ensures r[i] != k && r[i] in t && t[r[i]].etime <= f.etime
    {
      assert r[i] in r;
    }
  }

  /** The active queue after a node has been moved to its head. */
  function Ticked(q: seq<FlowKey>, k: FlowKey): seq<FlowKey> {
    if q != [] && q[|q| - 1] == k then q else Without(q, k) + [k]
  }

  lemma HeadStays(t: map<FlowKey, Flow>, q: seq<FlowKey>, k: FlowKey, f: Flow)
    requires Recency(t, q) && q != [] && q[|q| - 1] == k
    requires forall x :: x in q ==> x in t && t[x].etime <= f.etime
    ensures Distinct(q) ==> Recency(t[k := f], q)
  {
    if Distinct(q) {
      forall i, j | 0 <= i <= j < |q|
        ensures t[k := f][q[i]].etime <= t[k := f][q[j]].etime
      {
        assert q[i] in q;
        if j < |q| - 1 {
          assert q[i] != k && q[j] != k;
        }
      }
    }
  }

  lemma TickedQueue(t: map<FlowKey, Flow>, q: seq<FlowKey>, k: FlowKey, f: Flow)
    requires Distinct(q) && Recency(t, q)
    requires forall x :: x in q ==> x in t && t[x].etime <= f.etime
    requires forall x :: x in q || x == k <==> x in t
    ensures Queued(t[k := f], Ticked(q, k)) && Recency(t[k := f], Ticked(q, k))
    ensures |Ticked(q, k)| == |q| + (if k in q then 0 else 1)
  {
    if q != [] && q[|q| - 1] == k {
      HeadStays(t, q, k, f);
    } else {
      WithoutDistinct(q, k);
      TickQueue(t, q, k, f);
    }
  }

  lemma IndexedUpdate(t: map<FlowKey, Flow>, k: FlowKey, f: Flow)
    requires Indexed(t) && k in t && Canon(f.key) == k
    ensures Indexed(t[k := f])
  {
  }

  lemma SettleTicked(s: Tab, k: FlowKey, f: Flow)
    requires StructuredBut(s, k) && !Finished(f.state)
    requires Canon(f.key) == k && f.stime <= f.etime == s.ctime
    ensures Structured(Settle(s, k, f))
  {
    hide Indexed, Recency, Queued, Ticked, Finished, Distinct, Timely, Settle;
    SettledFields(s, k, f);
    TimelyUpdate(s, k, f);
    QueueTimes(s, k, f);
    TickedQueue(s.table, s.aq, k, f);
    IndexedUpdate(s.table, k, f);
  }

  lemma SettledFields(s: Tab, k: FlowKey, f: Flow)
    requires !Finished(f.state)
    ensures
      var s' := Settle(s, k, f);
      s'.aq == Ticked(s.aq, k) && s'.table == s.table[k := f] && s'.count == s.count && s'.ctime == s.ctime
  {
    hide Finished, Without;
  }

  lemma TimelyUpdate(s: Tab, k: FlowKey, f: Flow)
    requires Timely(s) && f.stime <= f.etime == s.ctime
    ensures Timely(s.(table := s.table[k := f]))
    ensures forall t: Tab :: t.table == s.table[k := f] && t.ctime == s.ctime ==> Timely(t)
  {
  }

  lemma QueueTimes(s: Tab, k: FlowKey, f: Flow)
    requires StructuredBut(s, k) && f.etime == s.ctime
    ensures forall x :: x in s.aq ==> x in s.table && s.table[x].etime <= f.etime
  {
    hide Indexed, Recency, Distinct;
  }

  lemma LegitTimes(cfg: Config, f: Flow)
    requires Legit(cfg, f)
    ensures f.stime <= f.etime
  {
    assert f.hist[0].ptime <= f.hist[|f.hist| - 1].ptime;
    assert ToRecord(f) == Summarize(f.hist);
  }

  /** The other flows of the table are fine, and so are the ended ones. */
  ghost predicate ContentsBut(cfg: Config, s: Tab, k: FlowKey) {
    && s.cqCount == |s.cq|
    && AllLive(cfg, s.table - {k})
    && AllEnded(cfg, s.cq) && AllEnded(cfg, s.freed)
  }

  lemma SettleCoherent(cfg: Config, s: Tab, k: FlowKey, f: Flow)
    requires StructuredBut(s, k) && ContentsBut(cfg, s, k)
    requires Canon(f.key) == k && Legit(cfg, f) && f.etime == s.ctime
    ensures Coherent(cfg, Settle(s, k, f))
  {
    if Finished(f.state) {
      SettleClosed(s, k, f);
      EndedAppend(cfg, s.cq, f, Closed);
    } else {
      LegitTimes(cfg, f);
      SettleTicked(s, k, f);
      LiveUpdate(cfg, s.table, k, f);
    }
  }

  lemma LiveUpdate(cfg: Config, t: map<FlowKey, Flow>, k: FlowKey, f: Flow)
    requires AllLive(cfg, t - {k}) && Legit(cfg, f) && !Finished(f.state)
    ensures AllLive(cfg, t[k := f])
  {
    var t' := t[k := f];
    forall x | x in t'
      ensures Live(cfg, t'[x])
    {
      if x != k {
        assert x in t - {k};
      }
    }
  }

  lemma OpenIndexed(t: map<FlowKey, Flow>, f: Flow)
    requires Indexed(t) && Find(t, f.key).NotFound?
    ensures Indexed(t[Canon(f.key) := f])
    ensures Find(t[Canon(f.key) := f], f.key) == At(Canon(f.key), false)
  {
    var t' := t[Canon(f.key) := f];
    ReverseLaws(f.key);
    forall x, y | x in t' && y in t' && Conv(x) == Conv(y)
      ensures x == y
    {
      ReverseLaws(t'[x].key);
      ReverseLaws(t'[y].key);
      ConvClasses(t'[x].key, f.key);
      ConvClasses(t'[y].key, f.key);
    }
  }

  lemma OpenCoherent(cfg: Config, s: Tab, key: FlowKey, fid: nat, cont: bool)
    requires Coherent(cfg, s) && Find(s.table, key).NotFound?
    ensures StructuredBut(Open(s, key, fid, cont), Canon(key))
    ensures ContentsBut(cfg, Open(s, key, fid, cont), Canon(key))
    ensures Find(Open(s, key, fid, cont).table, key) == At(Canon(key), false)
  {
    hide Live, Ended, Reverse;
    var s' := Open(s, key, fid, cont);
    var c := Canon(key);
    assert c in Conv(key);
    assert c !in s.table && c !in s.aq;
    OpenIndexed(s.table, s'.table[c]);
    assert Recency(s'.table, s'.aq);
    assert s'.table - {c} == s.table;
  }

  /** After a flow is closed its conversation is not indexed any more. */
  lemma CloseUnindexes(cfg: Config, s: Tab, key: FlowKey, why: EndReason)
    requires Coherent(cfg, s) && Find(s.table, key).At?
    ensures Find(Close(s, Find(s.table, key).k, why).table, key).NotFound?
  {
    var k := Find(s.table, key).k;
    var t := s.table - {k};
    ReverseLaws(key);
    ReverseLaws(s.table[k].key);
    ConvClasses(s.table[k].key, key);
    forall x | x in t
      ensures x !in Conv(key)
    {
      if x in Conv(key) {
        ReverseLaws(s.table[x].key);
        ConvClasses(s.table[x].key, key);
        assert false;
      }
    }
  }

  // ---- one packet ----

  /** A packet whose conversation is not indexed starts a flow of its own. */
  lemma StartFlow(cfg: Config, s: Tab, p: Packet, fid: nat, cont: bool)
    requires Coherent(cfg, s) && Find(s.table, p.key).NotFound? && s.ctime == p.ptime
    ensures
      var s1 := Open(s, p.key, fid, cont);
      && Find(s1.table, p.key) == At(Canon(p.key), false)
      && s1.table[Canon(p.key)].stime <= p.ptime
      && Absorb(s1, p) == Settle(s1, Canon(p.key), Account(s1.table[Canon(p.key)], p, false))
      && s1.table[Canon(p.key)].hist == []
      && Coherent(cfg, Absorb(s1, p))
  {
    OpenCoherent(cfg, s, p.key, fid, cont);
    var s1 := Open(s, p.key, fid, cont);
    var k := Canon(p.key);
    var f0 := s1.table[k];
    FirstPacketLegit(cfg, p, f0.fid, cont);
    var f := Account(f0, p, false);
    SettleCoherent(cfg, s1, k, f);
  }

  lemma FoundFacts(cfg: Config, s: Tab, p: Packet)
    requires Coherent(cfg, s) && Find(s.table, p.key).At?
    ensures
      var at := Find(s.table, p.key);
      var f := s.table[at.k];
      && Conv(p.key) == Conv(f.key) == Conv(at.k) && at.back == (Canon(p.key) != Canon(f.key))
      && f.hist != [] && at.back == Backward(f.hist, p)
      && f.stime <= f.etime <= s.ctime
  {
    var at := Find(s.table, p.key);
    var f := s.table[at.k];
    assert Live(cfg, f);
    ReverseLaws(p.key);
    ReverseLaws(f.key);
    ConvClasses(f.key, p.key);
  }

  /** A packet that breaks nothing joins the flow it finds. */
  lemma ContinueFlow(cfg: Config, s: Tab, p: Packet)
    requires Coherent(cfg, s) && Find(s.table, p.key).At? && s.ctime == p.ptime
    requires !Breaks(cfg, s.table[Find(s.table, p.key).k].hist, p)
    ensures s.table[Find(s.table, p.key).k].stime <= p.ptime
    ensures Coherent(cfg, Absorb(s, p))
  {
    var at := Find(s.table, p.key);
    var f0 := s.table[at.k];
    FoundFacts(cfg, s, p);
    assert Live(cfg, f0);
    AccountLegit(cfg, f0, p, at.back);
    var f := Account(f0, p, at.back);
    assert ContentsBut(cfg, s, at.k);
    SettleCoherent(cfg, s, at.k, f);
  }

  lemma AcceptCoherent(cfg: Config, s: Tab, p: Packet)
    requires Coherent(cfg, s) && s.ctime <= p.ptime
    ensures Coherent(cfg, Accept(s, p))
  {
  }

  /** What Place decides: continue, or start afresh from a coherent table in which the old
      flow, if any, has been closed. */
  ghost predicate Restarts(cfg: Config, s: Tab, p: Packet) {
    match Find(s.table, p.key)
    case NotFound => true
    case At(k, back) => Outlived(cfg, s.table[k], p, back) || p.ptime - s.table[k].etime > cfg.idleMs
  }

  /** The table from which a restarting packet opens its flow, and the flow id it continues. */
  ghost function Vacated(cfg: Config, s: Tab, p: Packet): Tab {
    match Find(s.table, p.key)
    case NotFound => s
    case At(k, back) => Close(s, k, if Outlived(cfg, s.table[k], p, back) then Active else Idle)
  }

  lemma VacatedCoherent(cfg: Config, s: Tab, p: Packet)
    requires Coherent(cfg, s) && Restarts(cfg, s, p)
    ensures Coherent(cfg, Vacated(cfg, s, p))
    ensures Find(Vacated(cfg, s, p).table, p.key).NotFound?
    ensures exists fid: nat, cont :: Place(cfg, s, p) == Open(Vacated(cfg, s, p), p.key, fid, cont)
  {
    match Find(s.table, p.key)
    case NotFound =>
      assert Place(cfg, s, p) == Open(Vacated(cfg, s, p), p.key, 0, false);
    case At(k, back) =>
      var f := s.table[k];
      var why := if Outlived(cfg, f, p, back) then Active else Idle;
      CloseCoherent(cfg, s, k, why);
      CloseUnindexes(cfg, s, p.key, why);
      var cont := if Outlived(cfg, f, p, back) then cfg.silk else false;
      assert Place(cfg, s, p) == Open(Vacated(cfg, s, p), p.key, f.fid, cont);
  }

  /** Index, queue and counter coherence are kept by every packet. */
  lemma PacketCoherent(cfg: Config, s: Tab, p: Packet)
    requires Coherent(cfg, s)
    ensures Coherent(cfg, PacketStep(cfg, s, p))
  {
    if s.ctime <= p.ptime {
      var s1 := Accept(s, p);
      AcceptCoherent(cfg, s, p);
      PlaceIsFound(cfg, s1, p);
      if Restarts(cfg, s1, p) {
        VacatedCoherent(cfg, s1, p);
        var v := Vacated(cfg, s1, p);
        var fid: nat, cont :| Place(cfg, s1, p) == Open(v, p.key, fid, cont);
        StartFlow(cfg, v, p, fid, cont);
      } else {
        FoundFacts(cfg, s1, p);
        var at := Find(s1.table, p.key);
        BreakIsTimeout(cfg, s1.table[at.k], p, at.back);
        assert Place(cfg, s1, p) == s1;
        ContinueFlow(cfg, s1, p);
      }
    }
  }

  // ---- one flush call ----

  lemma {:induction false} CloseAllCoherent(cfg: Config, s: Tab, ks: seq<FlowKey>, why: EndReason)
    requires Coherent(cfg, s) && why != Closed
    ensures Coherent(cfg, CloseAll(s, ks, why))
    decreases |ks|
  {
    if ks != [] {
      if ks[0] in s.table {
        CloseCoherent(cfg, s, ks[0], why);
        CloseAllCoherent(cfg, Close(s, ks[0], why), ks[1..], why);
      } else {
        CloseAllCoherent(cfg, s, ks[1..], why);
      }
    }
  }

  lemma EmitCoherent(cfg: Config, s: Tab, room: nat)
    requires Coherent(cfg, s) && s.cq != []
    ensures Coherent(cfg, Emit(cfg, s, room))
  {
    assert Ended(cfg, s.cq[0]);
  }

  lemma DrainSmaller(cfg: Config, s: Tab, room: nat)
    requires s.cq != []
    ensures |Emit(cfg, s, room).cq| == |s.cq| - 1
  {
  }

  lemma {:induction false} DrainCoherent(cfg: Config, s: Tab, room: nat)
    requires Coherent(cfg, s)
    ensures Coherent(cfg, Drain(cfg, s, room).tab)
    decreases |s.cq|
  {
    hide Emit, Exports, Coherent;
    if s.cq != [] {
      EmitCoherent(cfg, s, room);
      DrainSmaller(cfg, s, room);
      var n := |Exports(cfg, s.cq[0])|;
      var s' := Emit(cfg, s, room);
      if room >= n {
        DrainCoherent(cfg, s', room - n);
        assert Drain(cfg, s, room) == Drain(cfg, s', room - n);
      } else {
        assert Drain(cfg, s, room).tab == s';
      }
    }
  }

  lemma ExpireCoherent(cfg: Config, s: Tab, close: bool)
    requires Coherent(cfg, s)
    ensures Coherent(cfg, Expire(cfg, s, close))
  {
    CloseAllCoherent(cfg, s, IdleKeys(cfg, s, s.aq), Idle);
    var s1 := CloseAll(s, IdleKeys(cfg, s, s.aq), Idle);
    CloseAllCoherent(cfg, s1, ExcessKeys(cfg, s1), Resource);
    var s2 := CloseAll(s1, ExcessKeys(cfg, s1), Resource);
    CloseAllCoherent(cfg, s2, s2.aq, Forced);
  }

  lemma BeginCoherent(cfg: Config, s: Tab)
    requires Coherent(cfg, s)
    ensures Coherent(cfg, BeginFlush(s))
  {
  }

  lemma FlushCoherent(cfg: Config, s: Tab, close: bool, room: nat)
    requires Coherent(cfg, s)
    ensures Coherent(cfg, FlushStep(cfg, s, close, room).tab)
  {
    if !RateLimited(s, close) {
      ExpireCoherent(cfg, BeginFlush(s), close);
      DrainCoherent(cfg, Expire(cfg, BeginFlush(s), close), room);
    }
  }
}
