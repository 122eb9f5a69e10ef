/** Conservation: in every reachable state each accepted packet and octet is in exactly one
    place (an active flow, a closed flow, a written record or a record whose write failed),
    and every offered packet is either counted or rejected. */
module FlowConservation {
  import opened Widths
  import opened FlowKeys
  import opened Segments
  import opened Queues
  import opened FlowMachine
  import opened FlowInvariant
  import opened FlowRuns
  import opened FlowTheorems

  datatype Unit = Packets | Octets

  /** Forward plus reverse counter of a flow. */
  function Load(u: Unit, f: Flow): nat {
    match u
    case Packets => f.val.pkt + f.rval.pkt
    case Octets => f.val.oct + f.rval.oct
  }

  function PacketLoad(u: Unit, p: Packet): nat {
    if u == Packets then 1 else p.iplen
  }

  function Total(u: Unit, fs: seq<Flow>): nat {
    if fs == [] then 0 else Total(u, fs[..|fs| - 1]) + Load(u, fs[|fs| - 1])
  }

  function ActiveTotal(u: Unit, t: map<FlowKey, Flow>, q: seq<FlowKey>): nat {
    if q == [] then 0
    else (if q[0] in t then Load(u, t[q[0]]) else 0) + ActiveTotal(u, t, q[1..])
  }

  /** What the table holds or has let go. */
  function Stock(u: Unit, s: Tab): nat {
    Total(u, s.freed) + Total(u, s.cq) + ActiveTotal(u, s.table, s.aq)
  }

  function Counted(u: Unit, s: Tab): nat {
    if u == Packets then s.stats.packets else s.stats.octets
  }

  // ---- totals ----

  lemma TotalSnoc(u: Unit, fs: seq<Flow>, f: Flow)
    ensures Total(u, fs + [f]) == Total(u, fs) + Load(u, f)
  {
    assert (fs + [f])[..|fs|] == fs;
  }

  lemma {:induction false} TotalAppend(u: Unit, a: seq<Flow>, b: seq<Flow>)
    ensures Total(u, a + b) == Total(u, a) + Total(u, b)
    decreases |b|
  {
    if b == [] {
      assert a + b == a;
    } else {
      TotalAppend(u, a, b[..|b| - 1]);
      assert (a + b)[..|a + b| - 1] == a + b[..|b| - 1];
    }
  }

  lemma {:induction false} ActiveFrame(u: Unit, t: map<FlowKey, Flow>, t': map<FlowKey, Flow>, q: seq<FlowKey>)
    requires forall x :: x in q ==> (x in t <==> x in t') && (x in t ==> t[x] == t'[x])
    ensures ActiveTotal(u, t, q) == ActiveTotal(u, t', q)
  {
    if q != [] {
      assert q[0] in q;
      ActiveFrame(u, t, t', q[1..]);
    }
  }

  lemma {:induction false} ActiveSnoc(u: Unit, t: map<FlowKey, Flow>, q: seq<FlowKey>, x: FlowKey)
    requires x in t
    ensures ActiveTotal(u, t, q + [x]) == ActiveTotal(u, t, q) + Load(u, t[x])
  {
    if q == [] {
      assert ActiveTotal(u, t, [x]) == Load(u, t[x]) + ActiveTotal(u, t, []);
      assert q + [x] == [x];
    } else {
      ActiveSnoc(u, t, q[1..], x);
      assert (q + [x])[1..] == q[1..] + [x];
    }
  }

  lemma {:induction false} ActivePick(u: Unit, t: map<FlowKey, Flow>, q: seq<FlowKey>, x: FlowKey)
    requires Distinct(q) && x in q && x in t
    ensures ActiveTotal(u, t, q) == ActiveTotal(u, t, Without(q, x)) + Load(u, t[x])
  {
    if q[0] != x {
      ActivePick(u, t, q[1..], x);
      assert Without(q, x)[1..] == Without(q[1..], x);
    }
  }

  // ---- steps ----

  lemma CloseStock(u: Unit, s: Tab, x: FlowKey, why: EndReason)
    requires Structured(s) && x in s.table
    ensures Stock(u, Close(s, x, why)) == Stock(u, s)
  {
    var f := s.table[x].(reason := why);
    TotalSnoc(u, s.cq, f);
    ActivePick(u, s.table, s.aq, x);
    WithoutDistinct(s.aq, x);
    ActiveFrame(u, s.table, s.table - {x}, Without(s.aq, x));
  }

  /** Putting flow f at the head of the active queue in place of node x. */
  lemma TickedTotal(u: Unit, t: map<FlowKey, Flow>, q: seq<FlowKey>, x: FlowKey, f: Flow)
    requires Distinct(q) && x in t
    ensures ActiveTotal(u, t[x := f], Ticked(q, x)) + (if x in q then Load(u, t[x]) else 0)
         == ActiveTotal(u, t, q) + Load(u, f)
  {
    hide Load;
    PickedTotal(u, t, q, x);
    WithoutDistinct(q, x);
    var r := Without(q, x);
    ActiveFrame(u, t, t[x := f], r);
    if q != [] && q[|q| - 1] == x {
      ActivePick(u, t[x := f], q, x);
    } else {
      ActiveSnoc(u, t[x := f], r, x);
    }
  }

  lemma PickedTotal(u: Unit, t: map<FlowKey, Flow>, q: seq<FlowKey>, x: FlowKey)
    requires Distinct(q) && x in t
    ensures ActiveTotal(u, t - {x}, Without(q, x)) + (if x in q then Load(u, t[x]) else 0) == ActiveTotal(u, t, q)
    ensures ActiveTotal(u, t, Without(q, x)) + (if x in q then Load(u, t[x]) else 0) == ActiveTotal(u, t, q)
  {
    hide Load;
    WithoutDistinct(q, x);
    if x in q {
      ActivePick(u, t, q, x);
    }
    ActiveFrame(u, t, t - {x}, Without(q, x));
  }

  lemma SettleStock(u: Unit, s: Tab, x: FlowKey, f: Flow)
    requires StructuredBut(s, x)
    ensures Stock(u, Settle(s, x, f)) + (if x in s.aq then Load(u, s.table[x]) else 0)
         == Stock(u, s) + Load(u, f)
  {
    hide Total, Recency, Timely, ActiveTotal;
    if Finished(f.state) {
      TotalSnoc(u, s.cq, f.(reason := Closed));
      PickedTotal(u, s.table, s.aq, x);
      UpdateThenRemove(s.table, x, f);
    } else {
      TickedTotal(u, s.table, s.aq, x, f);
    }
  }

  lemma AccountLoad(u: Unit, f: Flow, p: Packet, back: bool)
    requires f.stime <= p.ptime
    ensures Load(u, Account(f, p, back)) == Load(u, f) + PacketLoad(u, p)
  {
  }

  lemma StartStock(cfg: Config, u: Unit, s: Tab, p: Packet, fid: nat, cont: bool)
    requires Coherent(cfg, s) && Find(s.table, p.key).NotFound? && s.ctime == p.ptime
    ensures
      var s1 := Open(s, p.key, fid, cont);
      && Find(s1.table, p.key).At? && s1.table[Find(s1.table, p.key).k].stime <= p.ptime
      && Stock(u, Absorb(s1, p)) == Stock(u, s) + PacketLoad(u, p)
  {
    var x := Canon(p.key);
    var s1 := Open(s, p.key, fid, cont);
    StartFlow(cfg, s, p, fid, cont);
    OpenCoherent(cfg, s, p.key, fid, cont);
    assert x in Conv(p.key) && x !in s.aq;
    AccountLoad(u, s1.table[x], p, false);
    SettleStock(u, s1, x, Account(s1.table[x], p, false));
    ActiveFrame(u, s.table, s1.table, s.aq);
  }

  lemma PacketStock(cfg: Config, u: Unit, s: Tab, p: Packet)
    requires Coherent(cfg, s) && s.ctime <= p.ptime
    ensures Stock(u, PacketStep(cfg, s, p)) == Stock(u, s) + PacketLoad(u, p)
  {
    hide Stock, Load, Indexed, Recency, AllLive, AllEnded, Outlived;
    var s1 := Accept(s, p);
    AcceptCoherent(cfg, s, p);
    PlaceIsFound(cfg, s1, p);
    AcceptStock(u, s, p);
    if Restarts(cfg, s1, p) {
      VacatedCoherent(cfg, s1, p);
      var v := Vacated(cfg, s1, p);
      var fid: nat, cont :| Place(cfg, s1, p) == Open(v, p.key, fid, cont);
      if Find(s1.table, p.key).At? {
        CloseStock(u, s1, Find(s1.table, p.key).k, Idle);
        CloseStock(u, s1, Find(s1.table, p.key).k, Active);
      }
      StartStock(cfg, u, v, p, fid, cont);
    } else {
      FoundFacts(cfg, s1, p);
      assert Place(cfg, s1, p) == s1;
      var at := Find(s1.table, p.key);
      AccountLoad(u, s1.table[at.k], p, at.back);
      SettleStock(u, s1, at.k, Account(s1.table[at.k], p, at.back));
    }
  }

  lemma AcceptStock(u: Unit, s: Tab, p: Packet)
    ensures Stock(u, Accept(s, p)) == Stock(u, s)
    ensures Counted(u, Accept(s, p)) == Counted(u, s) + PacketLoad(u, p)
  {
  }

  lemma PacketCounted(cfg: Config, u: Unit, s: Tab, p: Packet)
    requires Coherent(cfg, s)
    ensures
      var s' := PacketStep(cfg, s, p);
      if p.ptime < s.ctime then Counted(u, s') == Counted(u, s) && s'.stats.seqrej == s.stats.seqrej + 1
      else Counted(u, s') == Counted(u, s) + PacketLoad(u, p) && s'.stats.seqrej == s.stats.seqrej
  {
    hide Find, Account, Finished, Outlived, Without, Indexed, Queued, Recency, AllLive, AllEnded;
  }

  lemma {:induction false} CloseAllStock(cfg: Config, u: Unit, s: Tab, ks: seq<FlowKey>, why: EndReason)
    requires Structured(s)
    ensures Stock(u, CloseAll(s, ks, why)) == Stock(u, s)
    decreases |ks|
  {
    if ks != [] {
      if ks[0] in s.table {
        CloseStock(u, s, ks[0], why);
        CloseStructured(s, ks[0], why);
        CloseAllStock(cfg, u, Close(s, ks[0], why), ks[1..], why);
      } else {
        CloseAllStock(cfg, u, s, ks[1..], why);
      }
    }
  }

  lemma {:induction false} DrainStock(cfg: Config, u: Unit, s: Tab, room: nat)
    ensures Stock(u, Drain(cfg, s, room).tab) == Stock(u, s)
    ensures Counted(u, Drain(cfg, s, room).tab) == Counted(u, s)
    ensures Drain(cfg, s, room).tab.stats.seqrej == s.stats.seqrej
    decreases |s.cq|
  {
    hide Emit, Exports, Stock, Counted;
    if s.cq != [] {
      EmitStock(cfg, u, s, room);
      var n := |Exports(cfg, s.cq[0])|;
      var s' := Emit(cfg, s, room);
      if room >= n {
        DrainSmaller(cfg, s, room);
        DrainStock(cfg, u, s', room - n);
        assert Drain(cfg, s, room) == Drain(cfg, s', room - n);
      } else {
        assert Drain(cfg, s, room).tab == s';
      }
    }
  }

  lemma EmitStock(cfg: Config, u: Unit, s: Tab, room: nat)
    requires s.cq != []
    ensures Stock(u, Emit(cfg, s, room)) == Stock(u, s)
    ensures Counted(u, Emit(cfg, s, room)) == Counted(u, s)
    ensures Emit(cfg, s, room).stats.seqrej == s.stats.seqrej
  {
    TotalSnoc(u, s.freed, s.cq[0]);
    TotalAppend(u, [s.cq[0]], s.cq[1..]);
    TotalSnoc(u, [], s.cq[0]);
    assert [] + [s.cq[0]] == [s.cq[0]];
    assert [s.cq[0]] + s.cq[1..] == s.cq;
  }

  lemma ExpireStock(cfg: Config, u: Unit, s: Tab, close: bool)
    requires Coherent(cfg, s)
    ensures Stock(u, Expire(cfg, s, close)) == Stock(u, s)
    ensures Expire(cfg, s, close).stats == s.stats
  {
    hide Stock;
    var s1 := CloseAll(s, IdleKeys(cfg, s, s.aq), Idle);
    CloseAllStock(cfg, u, s, IdleKeys(cfg, s, s.aq), Idle);
    CloseAllOutput(s, IdleKeys(cfg, s, s.aq), Idle);
    CloseAllCoherent(cfg, s, IdleKeys(cfg, s, s.aq), Idle);
    var s2 := CloseAll(s1, ExcessKeys(cfg, s1), Resource);
    CloseAllStock(cfg, u, s1, ExcessKeys(cfg, s1), Resource);
    CloseAllOutput(s1, ExcessKeys(cfg, s1), Resource);
    CloseAllCoherent(cfg, s1, ExcessKeys(cfg, s1), Resource);
    CloseAllStock(cfg, u, s2, s2.aq, Forced);
    CloseAllOutput(s2, s2.aq, Forced);
  }

  lemma FlushStock(cfg: Config, u: Unit, s: Tab, close: bool, room: nat)
    requires Coherent(cfg, s)
    ensures
      var s' := FlushStep(cfg, s, close, room).tab;
      Stock(u, s') == Stock(u, s) && Counted(u, s') == Counted(u, s) && s'.stats.seqrej == s.stats.seqrej
  {
    if !RateLimited(s, close) {
      hide Expire, Drain, Total, ActiveTotal, Coherent;
      var s0 := BeginFlush(s);
      BeginCoherent(cfg, s);
      ExpireStock(cfg, u, s0, close);
      DrainStock(cfg, u, Expire(cfg, s0, close), room);
    }
  }

  lemma {:induction false} RunStock(cfg: Config, u: Unit, es: seq<Event>)
    ensures
      var s := Run(cfg, es);
      && Counted(u, s) == Stock(u, s)
      && s.stats.packets + s.stats.seqrej == |Offered(es)|
  {
    if es != [] {
      hide Stock, PacketStep, FlushStep;
      var s := Run(cfg, es[..|es| - 1]);
      RunStock(cfg, u, es[..|es| - 1]);
      match es[|es| - 1]
      case Arrive(p) =>
        PacketCounted(cfg, u, s, p);
        PacketCounted(cfg, Packets, s, p);
        if s.ctime <= p.ptime {
          PacketStock(cfg, u, s, p);
        } else {
          RejectStock(cfg, u, s, p);
        }
      case Flush(close, room) =>
        FlushStock(cfg, u, s, close, room);
        FlushStock(cfg, Packets, s, close, room);
    }
  }

  lemma RejectStock(cfg: Config, u: Unit, s: Tab, p: Packet)
    requires Coherent(cfg, s) && p.ptime < s.ctime
    ensures Stock(u, PacketStep(cfg, s, p)) == Stock(u, s)
  {
  }

  // ---- freed flows and the records made of them ----

  /** A flow without backward packets has no backward octets. */
  lemma {:induction false} SilentBackward(seg: seq<Packet>, n: nat)
    requires n <= |seg| && Traffic(seg, n, true).pkt == 0
    ensures Traffic(seg, n, true).oct == 0
  {
    if n > 0 {
      SilentBackward(seg, n - 1);
    }
  }

  /** The uniflow split keeps packets and octets. */
  lemma ExportsLoad(cfg: Config, u: Unit, f: Flow)
    requires Ended(cfg, f)
    ensures Total(u, Exports(cfg, f)) == Load(u, f)
  {
    assert f.rval.pkt == 0 ==> f.rval.oct == 0 by {
      assert ToRecord(f) == Summarize(f.hist);
      if f.rval.pkt == 0 {
        SilentBackward(f.hist, |f.hist|);
      }
    }
    assert Total(u, []) == 0;
    hide Ended, Total;
    TotalSnoc(u, [], f);
    TotalSnoc(u, [], Uniflow(f));
    TotalSnoc(u, [Uniflow(f)], UniflowReverse(f));
    assert [] + [f] == [f] && [] + [Uniflow(f)] == [Uniflow(f)];
    assert [Uniflow(f)] + [UniflowReverse(f)] == [Uniflow(f), UniflowReverse(f)];
  }

  ghost predicate OutputBalanced(u: Unit, s: Tab) {
    Total(u, s.freed) == Total(u, s.written) + Total(u, s.failed)
  }

  lemma TotalSplit(u: Unit, recs: seq<Flow>, n: nat, w: seq<Flow>, x: seq<Flow>)
    requires n <= |recs|
    ensures Total(u, w + recs[..n]) + Total(u, x + recs[n..]) == Total(u, w) + Total(u, x) + Total(u, recs)
  {
    hide Total;
    TotalAppend(u, w, recs[..n]);
    TotalAppend(u, x, recs[n..]);
    TotalAppend(u, recs[..n], recs[n..]);
    assert recs[..n] + recs[n..] == recs;
  }

  lemma HeadEnded(cfg: Config, s: Tab)
    requires Coherent(cfg, s) && s.cq != []
    ensures Ended(cfg, s.cq[0])
  {
  }

  lemma EmitBalanced(cfg: Config, u: Unit, s: Tab, room: nat)
    requires Coherent(cfg, s) && s.cq != [] && OutputBalanced(u, s)
    ensures OutputBalanced(u, Emit(cfg, s, room))
  {
    hide Coherent, Ended, Exports, Total, Load;
    var f := s.cq[0];
    var recs := Exports(cfg, f);
    HeadEnded(cfg, s);
    ExportsLoad(cfg, u, f);
    TotalSnoc(u, s.freed, f);
    TotalSplit(u, recs, Min(room, |recs|), s.written, s.failed);
  }

  lemma {:induction false} DrainBalanced(cfg: Config, u: Unit, s: Tab, room: nat)
    requires Coherent(cfg, s) && OutputBalanced(u, s)
    ensures OutputBalanced(u, Drain(cfg, s, room).tab)
    decreases |s.cq|
  {
    hide OutputBalanced, Emit, Exports, Coherent;
    if s.cq != [] {
      EmitBalanced(cfg, u, s, room);
      EmitCoherent(cfg, s, room);
      DrainSmaller(cfg, s, room);
      var n := |Exports(cfg, s.cq[0])|;
      var s' := Emit(cfg, s, room);
      if room >= n {
        DrainBalanced(cfg, u, s', room - n);
        assert Drain(cfg, s, room) == Drain(cfg, s', room - n);
      } else {
        assert Drain(cfg, s, room).tab == s';
      }
    }
  }

  lemma {:induction false} RunBalanced(cfg: Config, u: Unit, es: seq<Event>)
    ensures OutputBalanced(u, Run(cfg, es))
  {
    hide PacketStep, FlushStep, OutputBalanced, Coherent;
    if es == [] {
      EmptyBalanced(u);
    } else {
      var s := Run(cfg, es[..|es| - 1]);
      RunBalanced(cfg, u, es[..|es| - 1]);
      match es[|es| - 1]
      case Arrive(p) =>
        PacketBalanced(cfg, u, s, p);
      case Flush(close, room) =>
        FlushBalanced(cfg, u, s, close, room);
    }
  }

  lemma EmptyBalanced(u: Unit)
    ensures OutputBalanced(u, EmptyTab)
  {
  }

  lemma PacketBalanced(cfg: Config, u: Unit, s: Tab, p: Packet)
    requires Coherent(cfg, s) && OutputBalanced(u, s)
    ensures OutputBalanced(u, PacketStep(cfg, s, p))
  {
    hide PacketStep, Total, Coherent;
    PacketOutput(cfg, s, p);
  }

  lemma FlushBalanced(cfg: Config, u: Unit, s: Tab, close: bool, room: nat)
    requires Coherent(cfg, s) && OutputBalanced(u, s)
    ensures OutputBalanced(u, FlushStep(cfg, s, close, room).tab)
  {
    if !RateLimited(s, close) {
      hide Expire, Drain, Total, Coherent;
      var s0 := BeginFlush(s);
      BeginCoherent(cfg, s);
      ExpireFailed(cfg, s0, close);
      ExpireCoherent(cfg, s0, close);
      DrainBalanced(cfg, u, Expire(cfg, s0, close), room);
    }
  }

  /** Conservation in every reachable state, whatever the output accepts. */
  lemma Conservation(cfg: Config, es: seq<Event>)
    ensures
      var s := Run(cfg, es);
      && |Offered(es)| == s.stats.packets + s.stats.seqrej
      && s.stats.packets == Total(Packets, s.written) + Total(Packets, s.failed)
                          + Total(Packets, s.cq) + ActiveTotal(Packets, s.table, s.aq)
      && s.stats.octets == Total(Octets, s.written) + Total(Octets, s.failed)
                         + Total(Octets, s.cq) + ActiveTotal(Octets, s.table, s.aq)
  {
    hide Run, Coherent;
    RunStock(cfg, Packets, es);
    RunStock(cfg, Octets, es);
    RunBalanced(cfg, Packets, es);
    RunBalanced(cfg, Octets, es);
  }

  // ---- bounds that hold in every reachable state ----

  /** Every flow, active, closed or exported, in any run: its record is bounded, and it is
      marked CLOSED exactly when its history ends the connection, at its last packet. */
  lemma FlowBounds(cfg: Config, es: seq<Event>, f: Flow)
    requires
      var s := Run(cfg, es);
      f in s.table.Values || f in s.cq || f in s.freed
    ensures
      && f.stime <= f.etime <= f.stime + cfg.activeMs
      && f.hist != []
      && (forall i :: 1 <= i < |f.hist| ==> 0 <= f.hist[i].ptime - f.hist[i - 1].ptime <= cfg.idleMs)
      && f.val.pkt >= 1 && f.val.pkt + f.rval.pkt == |f.hist|
      && (cfg.silk ==> f.val.oct <= UINT32_MAX && f.rval.oct <= UINT32_MAX)
      && (forall n :: 1 <= n < |f.hist| ==> !HistoryClosed(f.hist[..n]))
      && (f in Run(cfg, es).table.Values ==> !HistoryClosed(f.hist))
      && (f in Run(cfg, es).cq || f in Run(cfg, es).freed ==> (f.reason == Closed <==> HistoryClosed(f.hist)))
  {
    var s := Run(cfg, es);
    AnyFlowLegit(cfg, s, f);
    hide Run, Coherent, Legit;
    assert f.key.proto == f.hist[0].key.proto && ToRecord(f) == Summarize(f.hist) by {
      LegitFacts(cfg, f);
    }
    SegmentBounds(cfg, f.hist);
    forall n | 1 <= n < |f.hist|
      ensures !HistoryClosed(f.hist[..n])
    {
      ClosedOnlyAtEnd(cfg, f.hist, n);
    }
  }

  /** A 64-bit time plus a delay that went through a signed 32-bit field. */
  lemma DelayField(stime: nat, delay: nat)
    requires stime + delay < 0x1_0000_0000_0000_0000
    ensures (stime + ToInt(delay)) % 0x1_0000_0000_0000_0000 == stime + delay
       <==> delay < 0x8000_0000 || delay >= 0xFFFF_FFFF_8000_0000
  {
    var m := (delay + 0x8000_0000) / 0x1_0000_0000;
    assert ToInt(delay) == delay - m * 0x1_0000_0000;
    var x := stime + delay - m * 0x1_0000_0000;
    if x >= 0 {
      assert x % 0x1_0000_0000_0000_0000 == x;
    } else {
      assert x % 0x1_0000_0000_0000_0000 == x + 0x1_0000_0000_0000_0000;
    }
  }

  /** The backward uniflow starts at the first backward packet if and only if that packet
      came less than 2^31 ms into the flow (or within 2^31 ms of a full 64-bit turn, where
      the two overflows cancel); otherwise the signed delay field has wrapped. */
  lemma ReverseStartTime(cfg: Config, es: seq<Event>, f: Flow, k: nat)
    requires
      var s := Run(cfg, es);
      f in s.table.Values || f in s.cq || f in s.freed
    requires k < |f.hist| && Backward(f.hist, f.hist[k]) && f.hist[k].ptime < 0x1_0000_0000_0000_0000
    requires forall i :: 0 <= i < k ==> !Backward(f.hist, f.hist[i])
    ensures
      var delay := f.hist[k].ptime - f.stime;
      UniflowReverse(f).stime == f.hist[k].ptime <==> delay < 0x8000_0000 || delay >= 0xFFFF_FFFF_8000_0000
  {
    hide Run, Coherent, ToInt, Backward, Unbroken;
    AnyFlowLegit(cfg, Run(cfg, es), f);
    FirstReverse(cfg, f, k);
    DelayField(f.stime, f.hist[k].ptime - f.stime);
  }

  lemma FirstReverse(cfg: Config, f: Flow, k: nat)
    requires Legit(cfg, f) && k < |f.hist| && Backward(f.hist, f.hist[k])
    requires forall i :: 0 <= i < k ==> !Backward(f.hist, f.hist[i])
    ensures f.stime <= f.hist[k].ptime && f.rdtime == ToInt(f.hist[k].ptime - f.stime)
  {
    hide ToInt, Traffic, Backward, Legit, StateOk, Breaks, ReverseDelay, Conv;
    LegitFacts(cfg, f);
    ReverseDelayIsFirst(f.hist, |f.hist|, k);
  }

  lemma LegitFacts(cfg: Config, f: Flow)
    requires Legit(cfg, f)
    ensures Unbroken(cfg, f.hist) && StateOk(f)
    ensures f.key.proto == f.hist[0].key.proto && ToRecord(f) == Summarize(f.hist)
  {
  }

  lemma AnyFlowLegit(cfg: Config, s: Tab, f: Flow)
    requires Coherent(cfg, s) && (f in s.table.Values || f in s.cq || f in s.freed)
    ensures Legit(cfg, f) && Unbroken(cfg, f.hist)
    ensures f in s.table.Values ==> !HistoryClosed(f.hist)
    ensures f in s.cq || f in s.freed ==> (f.reason == Closed <==> HistoryClosed(f.hist))
  {
    EndedMember(cfg, s.cq, f);
    EndedMember(cfg, s.freed, f);
    if f in s.table.Values {
      var k :| k in s.table && s.table[k] == f;
      assert Live(cfg, s.table[k]);
      FinishedIsHistory(f);
    }
  }

  lemma EndedMember(cfg: Config, fs: seq<Flow>, f: Flow)
    requires AllEnded(cfg, fs)
    ensures f in fs ==> Legit(cfg, f) && (f.reason == Closed <==> HistoryClosed(f.hist))
  {
    if f in fs {
      var i :| 0 <= i < |fs| && fs[i] == f;
      assert Ended(cfg, fs[i]);
    }
  }

  // ---- length of the close queue ----

  /** A successful flush call leaves the close queue below its limit. */
  lemma FlushBoundsQueue(cfg: Config, s: Tab, close: bool, room: nat)
    requires Coherent(cfg, s) && FlushStep(cfg, s, close, room).ok
    ensures FlushStep(cfg, s, close, room).tab.cqCount <= MAX_CQ - 1
  {
    FlushCoherent(cfg, s, close, room);
    if !RateLimited(s, close) {
      DrainEmpties(cfg, Expire(cfg, BeginFlush(s), close), room);
    }
  }

  /** One packet closes at most two flows. */
  lemma PacketBoundsQueue(cfg: Config, s: Tab, p: Packet)
    requires Coherent(cfg, s)
    ensures PacketStep(cfg, s, p).cqCount <= s.cqCount + 2
  {
    hide Find, Account, Finished, Outlived, Without, Indexed, Queued, Recency, AllLive, AllEnded;
  }

  /** n packets after a successful flush call at most MAX_CQ - 1 + 2n flows wait for export. */
  lemma {:induction false} CloseQueueBound(cfg: Config, es: seq<Event>, close: bool, room: nat, ps: seq<Event>)
    requires FlushStep(cfg, Run(cfg, es), close, room).ok
    requires forall i :: 0 <= i < |ps| ==> ps[i].Arrive?
    ensures Run(cfg, es + [Flush(close, room)] + ps).cqCount <= MAX_CQ - 1 + 2 * |ps|
  {
    hide PacketStep, FlushStep;
    var pre := es + [Flush(close, room)];
    if ps == [] {
      assert pre + ps == pre && pre[..|pre| - 1] == es;
      FlushBoundsQueue(cfg, Run(cfg, es), close, room);
    } else {
      var n := |ps| - 1;
      CloseQueueBound(cfg, es, close, room, ps[..n]);
      assert (pre + ps)[..|pre + ps| - 1] == pre + ps[..n];
      PacketBoundsQueue(cfg, Run(cfg, pre + ps[..n]), ps[n].p);
    }
  }
}
