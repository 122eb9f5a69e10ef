/** Why flows end and what the statistics say, over every run of the flow table. */
module FlowReasons {
  import opened FlowKeys
  import opened Segments
  import opened Queues
  import opened FlowMachine
  import opened FlowInvariant
  import opened FlowHistory
  import opened FlowRuns
  import opened FlowTheorems
  import opened FlowExpiry
  import opened FlowLabels

  /** The packet could not join the flow: too long after its start, or in silk mode too many octets
      in the packet's direction. */
  ghost predicate Outlasts(cfg: Config, f: Flow, p: Packet) {
    f.hist != [] &&
    (|| p.ptime - f.hist[0].ptime > cfg.activeMs
     || (cfg.silk && Traffic(f.hist, |f.hist|, Backward(f.hist, p)).oct + p.iplen > 0xFFFF_FFFF))
  }

  ghost predicate Outlasted(cfg: Config, es: seq<Event>, f: Flow) {
    exists i :: 0 <= i < |es| && es[i].Arrive? && Conv(es[i].p.key) == Conv(f.key) && Outlasts(cfg, f, es[i].p)
  }

  ghost predicate Crowded(cfg: Config, es: seq<Event>) {
    exists i :: 0 <= i < |es| && es[i].Flush? && 0 < cfg.maxFlows <= Run(cfg, es[..i]).count
  }

  ghost predicate ClosedDown(es: seq<Event>) {
    exists i :: 0 <= i < |es| && es[i].Flush? && es[i].close
  }

  /** The end reason of a flow says what happened to it. */
  ghost predicate Explained(cfg: Config, es: seq<Event>, f: Flow) {
    match f.reason
    case Running => false
    case Closed => f.hist != [] && HistoryClosed(f.hist)
    case Active => Outlasted(cfg, es, f)
    case Idle => Run(cfg, es).ctime - f.etime > cfg.idleMs
    case Resource => Crowded(cfg, es)
    case Forced => ClosedDown(es)
  }

  ghost predicate Gone(s: Tab, f: Flow) {
    f in s.freed || f in s.cq
  }

  lemma ClockGrows(cfg: Config, es: seq<Event>)
    requires es != []
    ensures Run(cfg, es[..|es| - 1]).ctime <= Run(cfg, es).ctime
  {
    var s := Run(cfg, es[..|es| - 1]);
    match es[|es| - 1]
    case Arrive(p) => StepClock(cfg, s, p);
    case Flush(close, room) => FlushClock(cfg, s, close, room);
  }

  /** An explanation stays one as the run goes on. */
  lemma StillExplained(cfg: Config, es: seq<Event>, f: Flow)
    requires es != [] && Explained(cfg, es[..|es| - 1], f)
    ensures Explained(cfg, es, f)
  {
    hide Run, Outlasted, Crowded, ClosedDown, HistoryClosed;
    ClockGrows(cfg, es);
    StillThere(cfg, es, f);
  }

  lemma StillThere(cfg: Config, es: seq<Event>, f: Flow)
    requires es != []
    ensures
      var es' := es[..|es| - 1];
      && (Outlasted(cfg, es', f) ==> Outlasted(cfg, es, f))
      && (Crowded(cfg, es') ==> Crowded(cfg, es))
      && (ClosedDown(es') ==> ClosedDown(es))
  {
    hide Run, Outlasts, Conv;
    var es' := es[..|es| - 1];
    assert forall i :: 0 <= i < |es'| ==> es'[i] == es[i] && es'[..i] == es[..i];
  }

  // ---- packets ----

  lemma PacketGone(cfg: Config, es: seq<Event>, f: Flow)
    requires es != [] && es[|es| - 1].Arrive? && Run(cfg, es[..|es| - 1]).ctime <= es[|es| - 1].p.ptime
    requires Gone(Run(cfg, es), f) && !Gone(Run(cfg, es[..|es| - 1]), f)
    ensures Explained(cfg, es, f)
  {
    hide Run, PacketStep, Coherent, Gone, FateOf, Find, Conv, Outlasts, HistoryClosed;
    var p := es[|es| - 1].p;
    var s := Run(cfg, es[..|es| - 1]);
    RunStep(cfg, es);
    IdsNameConversations(cfg, es[..|es| - 1]);
    NamedNumbers(s);
    StepClock(cfg, s, p);
    PacketEnds(cfg, s, p, f);
    if f.reason == Closed {
      PacketCoherent(cfg, s, p);
      GoneClosed(cfg, Run(cfg, es), f);
    } else {
      FateExplains(cfg, s, p, f);
      assert es[|es| - 1].Arrive?;
    }
  }

  /** A packet closes the flow it could not join, and its own flow if that ends the connection. */
  lemma PacketEnds(cfg: Config, s: Tab, p: Packet, f: Flow)
    requires Coherent(cfg, s) && Numbered(s) && s.ctime <= p.ptime
    requires Gone(PacketStep(cfg, s, p), f) && !Gone(s, f)
    ensures FateOf(cfg, s, p).Ends? ==> Find(s.table, p.key).At?
    ensures
      || f.reason == Closed
      || (FateOf(cfg, s, p).Ends? && f == s.table[Find(s.table, p.key).k].(reason := FateOf(cfg, s, p).why))
  {
    hide Indexed, Queued, Recency, AllLive, AllEnded, PacketStep, Find, Numbered, FateOf;
    FateFound(cfg, s, p);
    PacketLabels(cfg, s, p);
    PacketFreed(cfg, s, p);
  }

  lemma GoneClosed(cfg: Config, s: Tab, f: Flow)
    requires Coherent(cfg, s) && Gone(s, f) && f.reason == Closed
    ensures f.hist != [] && HistoryClosed(f.hist)
  {
    hide Structured, AllLive, AllEnded, HistoryClosed;
    EndedClosed(cfg, s.cq, f);
    EndedClosed(cfg, s.freed, f);
  }

  lemma EndedClosed(cfg: Config, fs: seq<Flow>, f: Flow)
    requires AllEnded(cfg, fs) && f.reason == Closed
    ensures f in fs ==> f.hist != [] && HistoryClosed(f.hist)
  {
    hide HistoryClosed, Breaks, Ordered, Summarize, StateOk;
    if f in fs {
      var i :| 0 <= i < |fs| && fs[i] == f;
      assert Ended(cfg, fs[i]);
    }
  }

  /** A flow that a packet ends is one that it outlasts, or that has been idle. */
  lemma FateExplains(cfg: Config, s: Tab, p: Packet, f: Flow)
    requires Coherent(cfg, s) && s.ctime <= p.ptime && FateOf(cfg, s, p).Ends?
    requires f == s.table[Find(s.table, p.key).k].(reason := FateOf(cfg, s, p).why)
    ensures Conv(p.key) == Conv(f.key)
    ensures f.reason == Active || f.reason == Idle
    ensures f.reason == Active ==> Outlasts(cfg, f, p)
    ensures f.reason == Idle ==> p.ptime - f.etime > cfg.idleMs
  {
    hide Indexed, Queued, Recency, AllEnded, Find, Legit, Traffic, Conv, Summarize, Ordered, Backward;
    FateFound(cfg, s, p);
    FoundFacts(cfg, s, p);
    var k := Find(s.table, p.key).k;
    assert Live(cfg, s.table[k]);
    LegitSummary(cfg, s.table[k]);
    SummaryTraffic(s.table[k].hist);
  }

  lemma SummaryTraffic(seg: seq<Packet>)
    requires seg != [] && Ordered(seg)
    ensures Summarize(seg).val == Traffic(seg, |seg|, false) && Summarize(seg).rval == Traffic(seg, |seg|, true)
    ensures Summarize(seg).stime == seg[0].ptime
  {
  }

  // ---- flush calls ----

  lemma {:induction false} CloseAllGone(s: Tab, ks: seq<FlowKey>, why: EndReason, f: Flow)
    requires Gone(CloseAll(s, ks, why), f) && !Gone(s, f)
    ensures exists k :: k in ks && k in s.table && f == s.table[k].(reason := why)
    decreases |ks|
  {
    if ks != [] {
      if ks[0] in s.table {
        var s' := Close(s, ks[0], why);
        if !Gone(s', f) {
          CloseAllGone(s', ks[1..], why, f);
        }
      } else {
        CloseAllGone(s, ks[1..], why, f);
      }
    }
  }

  lemma {:induction false} DrainGone(cfg: Config, s: Tab, room: nat, f: Flow)
    requires Gone(Drain(cfg, s, room).tab, f)
    ensures Gone(s, f)
    decreases |s.cq|
  {
    hide Exports;
    if s.cq != [] {
      DrainSmaller(cfg, s, room);
      var n := |Exports(cfg, s.cq[0])|;
      var s' := Emit(cfg, s, room);
      assert s.cq == [s.cq[0]] + s'.cq;
      if room >= n {
        DrainGone(cfg, s', room - n, f);
      }
    }
  }

  /** What ends in a flush call: idle flows, flows above the limit, or on a closing flush all. */
  lemma FlushGone(cfg: Config, s: Tab, close: bool, room: nat, f: Flow)
    requires Coherent(cfg, s) && Gone(FlushStep(cfg, s, close, room).tab, f) && !Gone(s, f)
    ensures
      || (f.reason == Idle && s.ctime - f.etime > cfg.idleMs)
      || (f.reason == Resource && 0 < cfg.maxFlows <= s.count)
      || (f.reason == Forced && close)
  {
    hide Drain, CloseAll, Coherent;
    var s0 := BeginFlush(s);
    DrainGone(cfg, Expire(cfg, s0, close), room, f);
    var s1 := CloseAll(s0, IdleKeys(cfg, s0, s0.aq), Idle);
    var s2 := CloseAll(s1, ExcessKeys(cfg, s1), Resource);
    CloseAllCount(s0, IdleKeys(cfg, s0, s0.aq), Idle);
    if Gone(s1, f) {
      CloseAllGone(s0, IdleKeys(cfg, s0, s0.aq), Idle, f);
    } else if Gone(s2, f) {
      CloseAllGone(s1, ExcessKeys(cfg, s1), Resource, f);
    } else {
      CloseAllGone(s2, s2.aq, Forced, f);
    }
  }

  /** In every run the end reason of every flow that has ended is true: closed by its connection,
      outlasted by a packet of its conversation, idle for too long, in a table at its limit, or in a
      table that was closed. */
  lemma {:induction false} ReasonsAreTrue(cfg: Config, es: seq<Event>, f: Flow)
    requires Gone(Run(cfg, es), f)
    ensures Explained(cfg, es, f)
  {
    if es != [] {
      hide Run, Explained, Coherent, PacketStep, FlushStep;
      var es' := es[..|es| - 1];
      var s := Run(cfg, es');
      RunStep(cfg, es);
      if Gone(s, f) {
        ReasonsAreTrue(cfg, es', f);
        StillExplained(cfg, es, f);
      } else {
        match es[|es| - 1]
        case Arrive(p) =>
          if s.ctime <= p.ptime {
            PacketGone(cfg, es, f);
          } else {
            RejectGone(cfg, s, p, f);
          }
        case Flush(close, room) =>
          FlushExplains(cfg, es, f);
      }
    } else {
      NothingGone(cfg, f);
    }
  }

  lemma NothingGone(cfg: Config, f: Flow)
    ensures !Gone(Run(cfg, []), f)
  {
  }

  lemma RunStep(cfg: Config, es: seq<Event>)
    requires es != []
    ensures
      var s := Run(cfg, es[..|es| - 1]);
      Run(cfg, es) == match es[|es| - 1]
                      case Arrive(p) => PacketStep(cfg, s, p)
                      case Flush(close, room) => FlushStep(cfg, s, close, room).tab
  {
    hide Coherent, PacketStep, FlushStep;
  }

  lemma RejectGone(cfg: Config, s: Tab, p: Packet, f: Flow)
    requires Coherent(cfg, s) && p.ptime < s.ctime
    ensures Gone(PacketStep(cfg, s, p), f) <==> Gone(s, f)
  {
  }

  lemma FlushExplains(cfg: Config, es: seq<Event>, f: Flow)
    requires es != [] && es[|es| - 1].Flush?
    requires Gone(Run(cfg, es), f) && !Gone(Run(cfg, es[..|es| - 1]), f)
    ensures Explained(cfg, es, f)
  {
    hide Run, FlushStep, Coherent, Gone;
    var n := |es| - 1;
    var s := Run(cfg, es[..n]);
    RunStep(cfg, es);
    FlushGone(cfg, s, es[n].close, es[n].room, f);
    FlushClock(cfg, s, es[n].close, es[n].room);
  }

  // ---- statistics ----

  /** Flows with packets of one direction only. */
  ghost function OneWay(fs: seq<Flow>): nat {
    if fs == [] then 0
    else
      var f := fs[|fs| - 1];
      OneWay(fs[..|fs| - 1]) + if ForwardOnly(f.hist) then 1 else 0
  }

  ghost predicate ForwardOnly(seg: seq<Packet>) {
    forall i :: 0 <= i < |seg| ==> !Backward(seg, seg[i])
  }

  /** The most flows that were ever active at once. */
  ghost function Most(cfg: Config, es: seq<Event>): int {
    if es == [] then 0
    else
      var s, e := Run(cfg, es[..|es| - 1]), es[|es| - 1];
      var m := Most(cfg, es[..|es| - 1]);
      if e.Arrive? && s.ctime <= e.p.ptime && FateOf(cfg, s, e.p).Fresh? && s.count + 1 > m then s.count + 1 else m
  }

  /** Flush calls that were due. */
  ghost function Scans(cfg: Config, es: seq<Event>): nat {
    if es == [] then 0
    else
      var s, e := Run(cfg, es[..|es| - 1]), es[|es| - 1];
      Scans(cfg, es[..|es| - 1]) + if e.Flush? && Due(s, e.close) then 1 else 0
  }

  /** Backward counters are zero exactly when no packet ran backwards. */
  lemma {:induction false} QuietBackward(seg: seq<Packet>, n: nat)
    requires n <= |seg|
    ensures Traffic(seg, n, true).pkt == 0 <==> forall i :: 0 <= i < n ==> !Backward(seg, seg[i])
    ensures Traffic(seg, n, true).pkt == 0 ==> Traffic(seg, n, true).oct == 0
  {
    if n > 0 {
      QuietBackward(seg, n - 1);
    }
  }

  ghost predicate Tallied(s: Tab) {
    && s.stats.flows == |s.written|
    && s.stats.uniflows == OneWay(s.freed)
    && s.count <= s.stats.peak
  }

  lemma EmitTallied(cfg: Config, s: Tab, room: nat)
    requires Coherent(cfg, s) && s.cq != [] && Tallied(s)
    ensures Tallied(Emit(cfg, s, room))
  {
    hide Coherent, Ended, Exports, ForwardOnly, OneWay;
    HeadOneWay(cfg, s);
    OneWaySnoc(s.freed, s.cq[0]);
  }

  lemma OneWaySnoc(fs: seq<Flow>, f: Flow)
    ensures OneWay(fs + [f]) == OneWay(fs) + if ForwardOnly(f.hist) then 1 else 0
  {
    hide ForwardOnly;
    assert (fs + [f])[..|fs|] == fs;
  }

  lemma HeadOneWay(cfg: Config, s: Tab)
    requires Coherent(cfg, s) && s.cq != []
    ensures
      var f := s.cq[0];
      f.rval.oct == 0 && f.rval.pkt == 0 <==> ForwardOnly(f.hist)
  {
    hide Structured, AllLive, Traffic, StateOk, Breaks, HistoryClosed, Conv;
    var f := s.cq[0];
    assert Ended(cfg, f);
    LegitSummary(cfg, f);
    SummaryTraffic(f.hist);
    QuietBackward(f.hist, |f.hist|);
    hide Ordered, Summarize;
  }

  lemma {:induction false} DrainTallied(cfg: Config, s: Tab, room: nat)
    requires Coherent(cfg, s) && Tallied(s)
    ensures
      var s' := Drain(cfg, s, room).tab;
      Tallied(s') && s'.stats.peak == s.stats.peak
    decreases |s.cq|
  {
    hide Tallied, Emit, Exports, Coherent;
    if s.cq != [] {
      EmitTallied(cfg, s, room);
      EmitCoherent(cfg, s, room);
      DrainSmaller(cfg, s, room);
      EmitPeak(cfg, s, room);
      var n := |Exports(cfg, s.cq[0])|;
      var s' := Emit(cfg, s, room);
      if room >= n {
        DrainTallied(cfg, s', room - n);
        assert Drain(cfg, s, room) == Drain(cfg, s', room - n);
      } else {
        assert Drain(cfg, s, room).tab == s';
      }
    }
  }

  lemma EmitPeak(cfg: Config, s: Tab, room: nat)
    requires s.cq != []
    ensures Emit(cfg, s, room).stats.peak == s.stats.peak
  {
  }

  lemma ExpireTallied(cfg: Config, s: Tab, close: bool)
    requires Tallied(s)
    ensures Tallied(Expire(cfg, s, close)) && Expire(cfg, s, close).stats == s.stats
  {
    hide OneWay, CloseAll;
    var s1 := CloseAll(s, IdleKeys(cfg, s, s.aq), Idle);
    CloseAllOutput(s, IdleKeys(cfg, s, s.aq), Idle);
    CloseAllCount(s, IdleKeys(cfg, s, s.aq), Idle);
    var s2 := CloseAll(s1, ExcessKeys(cfg, s1), Resource);
    CloseAllOutput(s1, ExcessKeys(cfg, s1), Resource);
    CloseAllCount(s1, ExcessKeys(cfg, s1), Resource);
    CloseAllOutput(s2, s2.aq, Forced);
    CloseAllCount(s2, s2.aq, Forced);
  }

  lemma FlushTallied(cfg: Config, s: Tab, close: bool, room: nat)
    requires Coherent(cfg, s) && Tallied(s)
    ensures
      var s' := FlushStep(cfg, s, close, room).tab;
      && Tallied(s') && s'.stats.peak == s.stats.peak
      && s'.stats.flush == s.stats.flush + (if Due(s, close) then 1 else 0)
  {
    hide Expire, Drain, OneWay, Coherent;
    FlushWhenDue(cfg, s, close, room);
    if Due(s, close) {
      var s0 := BeginFlush(s);
      BeginCoherent(cfg, s);
      ExpireTallied(cfg, s0, close);
      ExpireCoherent(cfg, s0, close);
      DrainTallied(cfg, Expire(cfg, s0, close), room);
    }
  }

  /** The count and the peak after a packet has found its place. */
  lemma PlaceTallied(cfg: Config, s: Tab, p: Packet)
    requires s.count <= s.stats.peak
    ensures
      var s' := Place(cfg, s, p);
      var n := s.count + 1;
      && s'.count == s.count + (if FateOf(cfg, s, p).Fresh? then 1 else 0)
      && s'.stats == s.stats.(peak := if FateOf(cfg, s, p).Fresh? && n > s.stats.peak then n else s.stats.peak)
      && s'.written == s.written && s'.freed == s.freed
  {
    hide Find, Without, Conv;
  }

  lemma PacketTallied(cfg: Config, s: Tab, p: Packet)
    requires Coherent(cfg, s) && Tallied(s) && s.ctime <= p.ptime
    ensures
      var s' := PacketStep(cfg, s, p);
      var n := s.count + 1;
      && Tallied(s') && s'.stats.flush == s.stats.flush
      && s'.stats.peak == if FateOf(cfg, s, p).Fresh? && n > s.stats.peak then n else s.stats.peak
  {
    hide Find, Place, Account, Finished, Without, OneWay, Indexed, Queued, Recency, AllLive, AllEnded, FateOf;
    var s1 := Accept(s, p);
    PlaceTallied(cfg, s1, p);
    AcceptFate(cfg, s, p);
    AcceptCoherent(cfg, s, p);
    PlaceIsFound(cfg, s1, p);
  }

  lemma AcceptFate(cfg: Config, s: Tab, p: Packet)
    ensures FateOf(cfg, Accept(s, p), p) == FateOf(cfg, s, p)
  {
  }

  lemma RejectTallied(cfg: Config, s: Tab, p: Packet)
    requires Coherent(cfg, s) && Tallied(s) && p.ptime < s.ctime
    ensures
      var s' := PacketStep(cfg, s, p);
      Tallied(s') && s'.stats.peak == s.stats.peak && s'.stats.flush == s.stats.flush
  {
    hide OneWay;
  }

  /** In every run: records written, flows exported that ran one way only, the most flows ever active
      at once, and the flush calls that scanned the table are what the statistics say. */
  lemma {:induction false} StatsOfRun(cfg: Config, es: seq<Event>)
    ensures
      var s := Run(cfg, es);
      && s.stats.flows == |s.written| && s.stats.uniflows == OneWay(s.freed)
      && s.stats.peak == Most(cfg, es) >= s.count && s.stats.flush == Scans(cfg, es)
  {
    if es != [] {
      hide Coherent, PacketStep, FlushStep, OneWay, FateOf, Due;
      var s := Run(cfg, es[..|es| - 1]);
      StatsOfRun(cfg, es[..|es| - 1]);
      match es[|es| - 1]
      case Arrive(p) =>
        if s.ctime <= p.ptime {
          PacketTallied(cfg, s, p);
        } else {
          RejectTallied(cfg, s, p);
        }
      case Flush(close, room) => FlushTallied(cfg, s, close, room);
    }
  }
}
