/** Theorems over every run of the flow table from the empty table: any interleaving of
    packets and flush calls, with any behaviour of the output. */
module FlowRuns {
  import opened Widths
  import opened FlowKeys
  import opened Segments
  import opened Queues
  import opened FlowMachine
  import opened FlowInvariant
  import opened FlowHistory

  datatype Event =
    | Arrive(p: Packet)
    | Flush(close: bool, room: nat)

  ghost function Step(cfg: Config, s: Tab, e: Event): Tab
    requires Coherent(cfg, s)
  {
    match e
    case Arrive(p) => PacketStep(cfg, s, p)
    case Flush(close, room) => FlushStep(cfg, s, close, room).tab
  }

  lemma StepCoherent(cfg: Config, s: Tab, e: Event)
    requires Coherent(cfg, s)
    ensures Coherent(cfg, Step(cfg, s, e))
  {
    match e
    case Arrive(p) => PacketCoherent(cfg, s, p);
    case Flush(close, room) => FlushCoherent(cfg, s, close, room);
  }

  /** The state after a run.  That every reachable state is coherent is the postcondition. */
  ghost function Run(cfg: Config, es: seq<Event>): (s: Tab)
    ensures Coherent(cfg, s)
  {
    if es == [] then EmptyTab
    else
      var s := Run(cfg, es[..|es| - 1]);
      StepCoherent(cfg, s, es[|es| - 1]);
      Step(cfg, s, es[|es| - 1])
  }

  // ---- the packets of a run ----

  function Clock(ps: seq<Packet>): nat {
    if ps == [] then 0 else ps[|ps| - 1].ptime
  }

  /** Packets offered in a run, in order. */
  function Offered(es: seq<Event>): seq<Packet> {
    if es == [] then []
    else
      var e := es[|es| - 1];
      Offered(es[..|es| - 1]) + (if e.Arrive? then [e.p] else [])
  }

  /** Packets not older than an earlier accepted one. */
  function InOrder(ps: seq<Packet>): (r: seq<Packet>)
    ensures forall i, j :: 0 <= i <= j < |r| ==> r[i].ptime <= r[j].ptime
  {
    if ps == [] then []
    else
      var r := InOrder(ps[..|ps| - 1]);
      var p := ps[|ps| - 1];
      if p.ptime < Clock(r) then r else r + [p]
  }

  function OfConv(c: set<FlowKey>, ps: seq<Packet>): seq<Packet> {
    if ps == [] then []
    else
      var p := ps[|ps| - 1];
      OfConv(c, ps[..|ps| - 1]) + (if Conv(p.key) == c then [p] else [])
  }

  /** The packets a run accounts to the conversation of key k. */
  function Talk(es: seq<Event>, k: FlowKey): seq<Packet> {
    OfConv(Conv(k), InOrder(Offered(es)))
  }

  lemma {:induction false} RunClock(cfg: Config, es: seq<Event>)
    ensures Run(cfg, es).ctime == Clock(InOrder(Offered(es)))
  {
    if es != [] {
      var es' := es[..|es| - 1];
      var s := Run(cfg, es');
      RunClock(cfg, es');
      match es[|es| - 1]
      case Arrive(p) =>
        var ps := Offered(es');
        assert Offered(es) == ps + [p] && (ps + [p])[..|ps|] == ps;
        StepClock(cfg, s, p);
      case Flush(close, room) =>
        assert Offered(es) == Offered(es');
        FlushClock(cfg, s, close, room);
    }
  }

  lemma StepClock(cfg: Config, s: Tab, p: Packet)
    requires Coherent(cfg, s)
    ensures PacketStep(cfg, s, p).ctime == if p.ptime < s.ctime then s.ctime else p.ptime
  {
    hide Find, Account, Finished, Outlived, Without, Indexed, Queued, Recency, AllLive, AllEnded;
  }

  lemma {:induction false} CloseAllClock(s: Tab, ks: seq<FlowKey>, why: EndReason)
    ensures CloseAll(s, ks, why).ctime == s.ctime
    decreases |ks|
  {
    if ks != [] {
      CloseAllClock(if ks[0] in s.table then Close(s, ks[0], why) else s, ks[1..], why);
    }
  }

  lemma FlushClock(cfg: Config, s: Tab, close: bool, room: nat)
    ensures FlushStep(cfg, s, close, room).tab.ctime == s.ctime
  {
    if !RateLimited(s, close) {
      var s0 := BeginFlush(s);
      CloseAllClock(s0, IdleKeys(cfg, s0, s0.aq), Idle);
      var s1 := CloseAll(s0, IdleKeys(cfg, s0, s0.aq), Idle);
      CloseAllClock(s1, ExcessKeys(cfg, s1), Resource);
      var s2 := CloseAll(s1, ExcessKeys(cfg, s1), Resource);
      CloseAllClock(s2, s2.aq, Forced);
      DrainHistories(cfg, Expire(cfg, s0, close), room, FlowKey(0, 0, 0, 0, V4(0, 0)));
    }
  }

  // ---- every run partitions the packets of every conversation into flows ----

  lemma FlattenExtended(restart: bool, hs: seq<seq<Packet>>, p: Packet)
    ensures Flatten(Extended(restart, hs, p)) == Flatten(hs) + [p]
  {
    if restart || hs == [] {
      FlattenAppend(hs, [[p]]);
      assert Flatten([[p]]) == Flatten([]) + [p];
    } else {
      var n := |hs| - 1;
      var r := Extended(restart, hs, p);
      assert r[..|r| - 1] == hs[..n];
      assert hs == hs[..n] + [hs[n]];
    }
  }

  lemma InOrderSnoc(ps: seq<Packet>, p: Packet)
    ensures InOrder(ps + [p]) == if p.ptime < Clock(InOrder(ps)) then InOrder(ps) else InOrder(ps) + [p]
  {
    assert (ps + [p])[..|ps|] == ps;
  }

  lemma OfConvSnoc(c: set<FlowKey>, ps: seq<Packet>, p: Packet)
    ensures OfConv(c, ps + [p]) == OfConv(c, ps) + (if Conv(p.key) == c then [p] else [])
  {
    assert (ps + [p])[..|ps|] == ps;
  }

  /** How the packets of a conversation change with one more event. */
  lemma TalkStep(cfg: Config, es: seq<Event>, k: FlowKey)
    requires es != []
    ensures
      var es' := es[..|es| - 1];
      var e := es[|es| - 1];
      Talk(es, k) == Talk(es', k) +
        (if e.Arrive? && e.p.ptime >= Run(cfg, es').ctime && Conv(e.p.key) == Conv(k) then [e.p] else [])
  {
    var es' := es[..|es| - 1];
    RunClock(cfg, es');
    match es[|es| - 1]
    case Arrive(p) =>
      InOrderSnoc(Offered(es'), p);
      OfConvSnoc(Conv(k), InOrder(Offered(es')), p);
    case Flush(_, _) =>
      assert Offered(es) == Offered(es');
  }

  /** In every run, the flows of a conversation (exported, waiting and active), in the order
      they began, hold each accepted packet of the conversation exactly once and in order. */
  lemma {:induction false} FlowsPartitionPackets(cfg: Config, es: seq<Event>, k: FlowKey)
    ensures Flatten(Histories(Run(cfg, es), k)) == Talk(es, k)
  {
    if es != [] {
      var es' := es[..|es| - 1];
      var s := Run(cfg, es');
      FlowsPartitionPackets(cfg, es', k);
      TalkStep(cfg, es, k);
      match es[|es| - 1]
      case Arrive(p) =>
        if s.ctime <= p.ptime {
          PacketHistories(cfg, s, p, k);
          FlattenExtended(Restarts(cfg, Accept(s, p), p), Histories(s, k), p);
        } else {
          assert Histories(PacketStep(cfg, s, p), k) == Histories(s, k);
        }
      case Flush(close, room) =>
        FlushHistories(cfg, s, close, room, k);
    }
  }

  // ---- quiet runs: the flows are the greedy split ----

  /** The flow limit does not fire in this flush call. */
  ghost predicate Unlimited(cfg: Config, s: Tab) {
    RateLimited(s, false) ||
    var s0 := BeginFlush(s);
    ExcessKeys(cfg, CloseAll(s0, IdleKeys(cfg, s0, s0.aq), Idle)) == []
  }

  /** No closing flush, and the flow limit never fires. */
  ghost predicate Quiet(cfg: Config, es: seq<Event>) {
    forall i :: 0 <= i < |es| && es[i].Flush? ==> !es[i].close && Unlimited(cfg, Run(cfg, es[..i]))
  }

  /** The conversations of a list of packets. */
  function Convs(ps: seq<Packet>): set<set<FlowKey>> {
    set p | p in ps :: Conv(p.key)
  }

  lemma {:induction false} InOrderOffered(ps: seq<Packet>)
    ensures forall p :: p in InOrder(ps) ==> p in ps
  {
    if ps != [] {
      InOrderOffered(ps[..|ps| - 1]);
    }
  }

  lemma {:induction false} OfConvSome(c: set<FlowKey>, ps: seq<Packet>)
    requires OfConv(c, ps) != []
    ensures c in Convs(ps)
  {
    var p := ps[|ps| - 1];
    if Conv(p.key) != c {
      OfConvSome(c, ps[..|ps| - 1]);
    }
  }

  /** An active flow belongs to a conversation of the run. */
  lemma ActiveConv(cfg: Config, es: seq<Event>, k: FlowKey)
    requires k in Run(cfg, es).table
    ensures Conv(k) in Convs(Offered(es))
  {
    hide Run, Coherent, Conv, Convs;
    var s := Run(cfg, es);
    ActiveIsLast(cfg, s, k);
    FlowsPartitionPackets(cfg, es, k);
    OfConvSome(Conv(k), InOrder(Offered(es)));
    InOrderOffered(Offered(es));
    ConvsWithin(InOrder(Offered(es)), Offered(es));
  }

  lemma ConvsWithin(ps: seq<Packet>, qs: seq<Packet>)
    requires forall p :: p in ps ==> p in qs
    ensures Convs(ps) <= Convs(qs) && |Convs(ps)| <= |Convs(qs)|
  {
    SubsetBound(Convs(ps), Convs(qs));
  }

  lemma SubsetBound<T>(a: set<T>, b: set<T>)
    requires a <= b
    ensures |a| <= |b|
  {
    assert b == a + (b - a);
  }

  lemma ActiveIsLast(cfg: Config, s: Tab, k: FlowKey)
    requires Coherent(cfg, s) && k in s.table
    ensures Flatten(Histories(s, k)) != []
  {
    FindByConv(s.table, k, k);
    LiveClock(cfg, s, k);
    var hs := Histories(s, k);
    assert hs[|hs| - 1] == s.table[k].hist;
  }

  /** The table never holds more flows than the run has conversations. */
  lemma ActiveBound(cfg: Config, es: seq<Event>)
    ensures Run(cfg, es).count <= |Convs(Offered(es))|
  {
    hide Run, Conv, Convs, AllLive, AllEnded;
    var s := Run(cfg, es);
    var q := seq(|s.aq|, i requires 0 <= i < |s.aq| => Conv(s.aq[i]));
    forall c | c in q
      ensures c in Convs(Offered(es))
    {
      var i :| 0 <= i < |q| && q[i] == c;
      assert s.aq[i] in s.table;
      ActiveConv(cfg, es, s.aq[i]);
    }
    forall i, j | 0 <= i < j < |q|
      ensures q[i] != q[j]
    {
      assert s.aq[i] in s.table && s.aq[j] in s.table;
    }
    DistinctBound(q, Convs(Offered(es)));
  }

  lemma {:induction false} CloseAllCount(s: Tab, ks: seq<FlowKey>, why: EndReason)
    ensures CloseAll(s, ks, why).count <= s.count
    decreases |ks|
  {
    if ks != [] {
      CloseAllCount(if ks[0] in s.table then Close(s, ks[0], why) else s, ks[1..], why);
    }
  }

  lemma {:induction false} OfferedPrefix(es: seq<Event>, n: nat)
    requires n <= |es|
    ensures forall p :: p in Offered(es[..n]) ==> p in Offered(es)
  {
    if n < |es| {
      var es' := es[..|es| - 1];
      assert es'[..n] == es[..n];
      OfferedPrefix(es', n);
    } else {
      assert es[..n] == es;
    }
  }

  /** Read off the events: without a closing flush, and with no flow limit or one above the
      number of conversations in the run, the limit never fires. */
  lemma QuietWhenFew(cfg: Config, es: seq<Event>)
    requires forall i :: 0 <= i < |es| && es[i].Flush? ==> !es[i].close
    requires cfg.maxFlows == 0 || |Convs(Offered(es))| < cfg.maxFlows
    ensures Quiet(cfg, es)
  {
    hide Run, Coherent, Convs, CloseAll, IdleKeys;
    forall i | 0 <= i < |es| && es[i].Flush?
      ensures Unlimited(cfg, Run(cfg, es[..i]))
    {
      var s0 := BeginFlush(Run(cfg, es[..i]));
      ActiveBound(cfg, es[..i]);
      OfferedPrefix(es, i);
      ConvsWithin(Offered(es[..i]), Offered(es));
      CloseAllCount(s0, IdleKeys(cfg, s0, s0.aq), Idle);
    }
  }

  /** The last flow of a conversation is over: no packet from now on could join it. */
  ghost predicate Over(cfg: Config, hs: seq<seq<Packet>>, now: nat) {
    hs != [] && hs[|hs| - 1] != [] ==>
      HistoryClosed(hs[|hs| - 1]) || now - Clock(hs[|hs| - 1]) > cfg.idleMs
  }

  ghost predicate Greedy(cfg: Config, s: Tab, k: FlowKey, ps: seq<Packet>) {
    && Histories(s, k) == Split(cfg, ps)
    && (Find(s.table, k).NotFound? ==> Over(cfg, Histories(s, k), s.ctime))
  }

  /** The table restarts a flow exactly where the greedy split starts a segment. */
  lemma RestartIsBreak(cfg: Config, s: Tab, p: Packet, ps: seq<Packet>)
    requires Coherent(cfg, s) && Greedy(cfg, s, p.key, ps) && s.ctime <= p.ptime
    ensures
      var hs := Histories(s, p.key);
      hs != [] ==> (Restarts(cfg, Accept(s, p), p) <==> Breaks(cfg, hs[|hs| - 1], p))
  {
    var s1 := Accept(s, p);
    match Find(s.table, p.key)
    case NotFound =>
    case At(x, back) =>
      FoundFacts(cfg, s, p);
      assert Live(cfg, s.table[x]);
      BreakIsTimeout(cfg, s.table[x], p, back);
  }

  lemma SplitSnoc(cfg: Config, ps: seq<Packet>, p: Packet)
    ensures
      var segs := Split(cfg, ps);
      Split(cfg, ps + [p]) == Extended(segs == [] || Breaks(cfg, segs[|segs| - 1], p), segs, p)
  {
    assert (ps + [p])[..|ps|] == ps;
  }

  /** The flow closed last belongs to the conversation of k, and its history ends the connection. */
  ghost predicate LastClosed(s: Tab, k: FlowKey) {
    && s.cq != [] && Conv(s.cq[|s.cq| - 1].key) == Conv(k)
    && s.cq[|s.cq| - 1].hist != [] && HistoryClosed(s.cq[|s.cq| - 1].hist)
  }

  /** After an accepted packet its conversation is active, or its history ends the connection. */
  lemma PacketLeaves(cfg: Config, s: Tab, p: Packet)
    requires Coherent(cfg, s) && s.ctime <= p.ptime
    ensures
      var s' := PacketStep(cfg, s, p);
      Find(s'.table, p.key).NotFound? ==> LastClosed(s', p.key)
  {
    hide Place, Conv, Legit, HistoryClosed, TcpStep, Count, ToInt, Find;
    var s1 := Accept(s, p);
    AcceptCoherent(cfg, s, p);
    PlaceIsFound(cfg, s1, p);
    PacketCoherent(cfg, s, p);
    var s2 := Place(cfg, s1, p);
    var at := Find(s2.table, p.key);
    var f := Account(s2.table[at.k], p, at.back);
    var s' := PacketStep(cfg, s, p);
    assert s' == Settle(s2, at.k, f);
    if Finished(f.state) {
      var g := f.(reason := Closed);
      assert s'.cq[|s'.cq| - 1] == g;
      assert Ended(cfg, g);
      PlacedKey(cfg, s1, p);
    } else {
      assert s'.table == s2.table[at.k := f];
    }
  }

  lemma PlacedKey(cfg: Config, s: Tab, p: Packet)
    requires Coherent(cfg, s)
    ensures
      var t := Place(cfg, s, p).table;
      Find(t, p.key).At? && Conv(t[Find(t, p.key).k].key) == Conv(p.key)
  {
    PlaceIsFound(cfg, s, p);
    if Restarts(cfg, s, p) {
      VacatedCoherent(cfg, s, p);
      var v := Vacated(cfg, s, p);
      var fid: nat, cont :| Place(cfg, s, p) == Open(v, p.key, fid, cont);
      OpenCoherent(cfg, v, p.key, fid, cont);
    } else {
      FoundFacts(cfg, s, p);
    }
  }

  lemma PacketGreedy(cfg: Config, s: Tab, p: Packet, k: FlowKey, ps: seq<Packet>)
    requires Coherent(cfg, s) && Greedy(cfg, s, k, ps) && s.ctime <= p.ptime
    ensures Greedy(cfg, PacketStep(cfg, s, p), k, ps + (if Conv(p.key) == Conv(k) then [p] else []))
  {
    hide PacketStep, Histories, Split;
    var s' := PacketStep(cfg, s, p);
    PacketHistories(cfg, s, p, k);
    StepClock(cfg, s, p);
    if Conv(p.key) == Conv(k) {
      SameConvGreedy(cfg, s, p.key, k, ps);
      RestartIsBreak(cfg, s, p, ps);
      SplitSnoc(cfg, ps, p);
      PacketLeaves(cfg, s, p);
      PacketCoherent(cfg, s, p);
      FindSameConv(s'.table, p.key, k);
      if Find(s'.table, k).NotFound? {
        LastHistory(s', k);
      }
    } else {
      assert ps + [] == ps;
      OtherConvFind(cfg, s, p, k);
    }
  }

  lemma LastHistory(s: Tab, k: FlowKey)
    requires s.cq != [] && Conv(s.cq[|s.cq| - 1].key) == Conv(k) && Find(s.table, k).NotFound?
    ensures
      var hs := Histories(s, k);
      hs != [] && hs[|hs| - 1] == s.cq[|s.cq| - 1].hist
  {
    var fs := s.freed + s.cq;
    assert fs[|fs| - 1] == s.cq[|s.cq| - 1];
  }

  lemma SameConvGreedy(cfg: Config, s: Tab, a: FlowKey, b: FlowKey, ps: seq<Packet>)
    requires Coherent(cfg, s) && Conv(a) == Conv(b) && Greedy(cfg, s, b, ps)
    ensures Greedy(cfg, s, a, ps) && Histories(s, a) == Histories(s, b)
  {
    FindSameConv(s.table, a, b);
  }

  /** A packet indexes and unindexes keys of its own conversation only. */
  lemma PlaceOthers(cfg: Config, s: Tab, p: Packet, x: FlowKey)
    requires x !in Conv(p.key)
    ensures x in Place(cfg, s, p).table <==> x in s.table
  {
    assert Canon(p.key) in Conv(p.key);
  }

  lemma AbsorbOthers(s: Tab, p: Packet, x: FlowKey)
    requires Find(s.table, p.key).At? && s.table[Find(s.table, p.key).k].stime <= p.ptime
    requires x !in Conv(p.key)
    ensures x in Absorb(s, p).table <==> x in s.table
  {
    hide Account, Finished, Without;
  }

  lemma OtherConvFind(cfg: Config, s: Tab, p: Packet, k: FlowKey)
    requires Coherent(cfg, s) && s.ctime <= p.ptime && Conv(p.key) != Conv(k)
    ensures Find(PacketStep(cfg, s, p).table, k).NotFound? <==> Find(s.table, k).NotFound?
  {
    hide Find, Place, Absorb, Conv;
    var s1 := Accept(s, p);
    PlaceIsFound(cfg, s1, p);
    DisjointConvs(p.key, k);
    var s2 := Place(cfg, s1, p);
    forall x | x in Conv(k)
      ensures x in PacketStep(cfg, s, p).table <==> x in s.table
    {
      PlaceOthers(cfg, s1, p, x);
      AbsorbOthers(s2, p, x);
    }
  }

  lemma DisjointConvs(a: FlowKey, b: FlowKey)
    requires Conv(a) != Conv(b)
    ensures Conv(a) !! Conv(b)
  {
    ReverseLaws(a);
    ConvClasses(a, b);
    ConvClasses(Reverse(a), b);
  }

  // ---- flush calls in a quiet run ----

  lemma {:induction false} CloseAllTable(s: Tab, ks: seq<FlowKey>, why: EndReason, x: FlowKey)
    ensures x in CloseAll(s, ks, why).table <==> x in s.table && x !in ks
    ensures x in CloseAll(s, ks, why).table ==> CloseAll(s, ks, why).table[x] == s.table[x]
    decreases |ks|
  {
    if ks != [] {
      CloseAllTable(if ks[0] in s.table then Close(s, ks[0], why) else s, ks[1..], why, x);
    }
  }

  lemma IdleGreedy(cfg: Config, s: Tab, k: FlowKey, ps: seq<Packet>)
    requires Coherent(cfg, s) && Greedy(cfg, s, k, ps)
    ensures Greedy(cfg, CloseAll(s, IdleKeys(cfg, s, s.aq), Idle), k, ps)
  {
    var ks := IdleKeys(cfg, s, s.aq);
    var s' := CloseAll(s, ks, Idle);
    CloseAllHistories(s, ks, Idle, k);
    CloseAllClock(s, ks, Idle);
    CloseAllCoherent(cfg, s, ks, Idle);
    if Find(s.table, k).At? && Find(s'.table, k).NotFound? {
      IdleIsOver(cfg, s, k);
    }
    hide Histories, CloseAll, IdleKeys, Split, Coherent, Find;
  }

  /** A flow that the idle scan closes is over: no packet from now on could join it. */
  lemma IdleIsOver(cfg: Config, s: Tab, k: FlowKey)
    requires Coherent(cfg, s) && Find(s.table, k).At?
    requires Find(CloseAll(s, IdleKeys(cfg, s, s.aq), Idle).table, k).NotFound?
    ensures Over(cfg, Histories(s, k), s.ctime)
  {
    var ks := IdleKeys(cfg, s, s.aq);
    var x := Find(s.table, k).k;
    CloseAllTable(s, ks, Idle, x);
    CloseAllCoherent(cfg, s, ks, Idle);
    StillFound(cfg, CloseAll(s, ks, Idle), s, k);
    assert IdleFlow(cfg, s, x);
    LiveClock(cfg, s, x);
    var hs := Histories(s, k);
    assert hs[|hs| - 1] == s.table[x].hist;
    hide Coherent, CloseAll, IdleKeys, Find, HistoryClosed, Histories;
  }

  lemma StillFound(cfg: Config, s': Tab, s: Tab, k: FlowKey)
    requires Coherent(cfg, s) && Coherent(cfg, s') && Find(s.table, k).At? && Find(s'.table, k).NotFound?
    ensures Find(s.table, k).k !in s'.table
  {
    var x := Find(s.table, k).k;
    FindByConv(s.table, k, x);
    if x in s'.table {
      FindByConv(s'.table, k, x);
    }
    hide Find, Live, Ended, Recency, Conv;
  }

  lemma LiveClock(cfg: Config, s: Tab, x: FlowKey)
    requires Coherent(cfg, s) && x in s.table
    ensures s.table[x].hist != [] && Clock(s.table[x].hist) == s.table[x].etime
  {
    assert Live(cfg, s.table[x]);
    LegitSummary(cfg, s.table[x]);
    hide Live, Ended, Indexed, Queued, Recency, Summarize, Ordered;
  }

  lemma FlushGreedy(cfg: Config, s: Tab, room: nat, k: FlowKey, ps: seq<Packet>)
    requires Coherent(cfg, s) && Greedy(cfg, s, k, ps) && Unlimited(cfg, s)
    ensures Greedy(cfg, FlushStep(cfg, s, false, room).tab, k, ps)
  {
    if !RateLimited(s, false) {
      hide Split, Drain, CloseAll, IdleKeys;
      var s0 := BeginFlush(s);
      assert Histories(s0, k) == Histories(s, k);
      IdleGreedy(cfg, s0, k, ps);
      var s1 := Expire(cfg, s0, false);
      assert s1 == CloseAll(s0, IdleKeys(cfg, s0, s0.aq), Idle);
      DrainHistories(cfg, s1, room, k);
    }
  }

  /** In a run in which the flow limit never fires, whenever the table is flushed, the flows
      of every conversation are the greedy split of its packets. */
  lemma {:induction false} QuietRunsAreGreedy(cfg: Config, es: seq<Event>, k: FlowKey)
    requires Quiet(cfg, es)
    ensures Greedy(cfg, Run(cfg, es), k, Talk(es, k))
  {
    if es != [] {
      hide Greedy, PacketStep, FlushStep, Coherent, Talk, Unlimited;
      var n := |es| - 1;
      var es' := es[..n];
      var s := Run(cfg, es');
      assert forall i :: 0 <= i < n ==> es'[..i] == es[..i];
      QuietRunsAreGreedy(cfg, es', k);
      TalkStep(cfg, es, k);
      match es[n]
      case Arrive(p) =>
        if s.ctime <= p.ptime {
          PacketGreedy(cfg, s, p, k, Talk(es', k));
        } else {
          RejectGreedy(cfg, s, p, k, Talk(es', k));
          assert Talk(es, k) == Talk(es', k);
        }
      case Flush(close, room) =>
        FlushGreedy(cfg, s, room, k, Talk(es', k));
        assert Talk(es, k) == Talk(es', k);
    } else {
      assert Histories(EmptyTab, k) == [];
    }
  }

  lemma RejectGreedy(cfg: Config, s: Tab, p: Packet, k: FlowKey, ps: seq<Packet>)
    requires Coherent(cfg, s) && Greedy(cfg, s, k, ps) && p.ptime < s.ctime
    ensures Greedy(cfg, PacketStep(cfg, s, p), k, ps)
  {
    hide Split;
    assert Histories(PacketStep(cfg, s, p), k) == Histories(s, k);
  }
}
