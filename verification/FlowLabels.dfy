/** What a flow record says besides its packets: counters as sums, the two halves of a biflow, flow
    ids, the end reason; and what the statistics of the table say about a run. */
module FlowLabels {
  import opened FlowKeys
  import opened Segments
  import opened Queues
  import opened FlowMachine
  import opened FlowInvariant
  import opened FlowHistory
  import opened FlowRuns
  import opened FlowExpiry

  // ---- counters are sums over the packets ----

  /** Sum of a number over the packets of one direction among the first n. */
  function Sum(seg: seq<Packet>, n: nat, back: bool, what: Packet -> nat): nat
    requires n <= |seg|
  {
    if n == 0 then 0
    else Sum(seg, n - 1, back, what) + if Backward(seg, seg[n - 1]) == back then what(seg[n - 1]) else 0
  }

  lemma {:induction false} CountersAreSums(seg: seq<Packet>, n: nat, back: bool)
    requires n <= |seg|
    ensures
      var t := Traffic(seg, n, back);
      && t.pkt == Sum(seg, n, back, (p: Packet) => 1)
      && t.oct == Sum(seg, n, back, (p: Packet) => p.iplen)
      && t.appPkt == Sum(seg, n, back, (p: Packet) => if p.datalen != 0 then 1 else 0)
      && t.appOct == Sum(seg, n, back, (p: Packet) => p.datalen)
  {
    if n > 0 {
      CountersAreSums(seg, n - 1, back);
    }
  }

  // ---- the halves of a biflow ----

  /** The records written for a flow: the flow itself, or in uniflow mode a record of the forward
      packets under the first packet's key and, if there are backward packets, one of those under
      their key. */
  lemma HalvesOfFlow(cfg: Config, f: Flow, i: nat)
    requires Legit(cfg, f) && i < |f.hist|
    ensures
      var n := |f.hist|;
      var fwd, rev := Uniflow(f), UniflowReverse(f);
      && fwd.key == f.hist[0].key && fwd.stime == f.hist[0].ptime && fwd.etime == f.hist[n - 1].ptime
      && fwd.val == Traffic(f.hist, n, false) && fwd.rval == NoTraffic && fwd.rdtime == 0
      && Opposite(fwd.key, rev.key) && rev.etime == f.hist[n - 1].ptime
      && (Backward(f.hist, f.hist[i]) ==> KeyEqual(rev.key, f.hist[i].key))
      && rev.val == Traffic(f.hist, n, true) && rev.rval == NoTraffic && rev.rdtime == 0
      && fwd.fid == rev.fid == f.fid && fwd.reason == rev.reason == f.reason
      && Exports(cfg, f) ==
           if !cfg.uniflow then [f]
           else if Traffic(f.hist, n, true).pkt == 0 then [fwd]
           else [fwd, rev]
  {
    LegitSummary(cfg, f);
    ReverseIsOpposite(f.key, f.key);
    assert Conv(f.hist[i].key) == Conv(f.hist[0].key);
    hide Traffic, ReverseDelay;
    BackwardKey(f.hist[0].key, f.hist[i].key);
  }

  /** The keys of a conversation: the first packet's, up to the index, or its opposite. */
  lemma BackwardKey(a: FlowKey, b: FlowKey)
    requires Conv(a) == Conv(b)
    ensures Canon(b) != Canon(a) ==> KeyEqual(Reverse(a), b)
  {
    ConvClasses(b, a);
    ReverseIsOpposite(b, a);
    ReverseIsOpposite(a, b);
    CanonDecidesEquality(a, b);
  }

  // ---- one packet: flow id, continuation and end reason ----

  /** The flow that holds the last packet of a key: still active, or closed last. */
  function Latest(s: Tab, key: FlowKey): Flow
    requires Find(s.table, key).NotFound? ==> s.cq != []
  {
    var at := Find(s.table, key);
    if at.At? then s.table[at.k] else s.cq[|s.cq| - 1]
  }

  datatype Fate = Fresh | Continues | Ends(why: EndReason)

  /** What a packet does to the flow it finds: nothing found; a flow that has lasted too long, or in
      silk mode would overflow its octet counter, ends as active; one that has rested too long ends as
      idle; otherwise it continues. */
  function FateOf(cfg: Config, s: Tab, p: Packet): Fate {
    match Find(s.table, p.key)
    case NotFound => Fresh
    case At(k, back) =>
      var f := s.table[k];
      if p.ptime - f.stime > cfg.activeMs then Ends(Active)
      else if cfg.silk && (if back then f.rval.oct else f.val.oct) + p.iplen > 0xFFFF_FFFF then Ends(Active)
      else if p.ptime - f.etime > cfg.idleMs then Ends(Idle)
      else Continues
  }

  /** Flow ids are positive. */
  ghost predicate Numbered(s: Tab) {
    s.nextFid > 0 && forall k :: k in s.table ==> s.table[k].fid > 0
  }

  lemma PlaceLabels(cfg: Config, s: Tab, p: Packet)
    requires Coherent(cfg, s) && Numbered(s)
    ensures Find(Place(cfg, s, p).table, p.key).At?
    ensures
      var s' := Place(cfg, s, p);
      var g := s'.table[Find(s'.table, p.key).k];
      match FateOf(cfg, s, p)
      case Fresh => g.fid == s.nextFid && !g.cont && s'.nextFid == s.nextFid + 1 && s'.cq == s.cq && g.hist == []
      case Continues => s' == s
      case Ends(why) =>
        var f := s.table[Find(s.table, p.key).k];
        && g.fid == f.fid && s'.nextFid == s.nextFid && g.hist == []
        && g.cont == (why == Active && cfg.silk)
        && s'.cq == s.cq + [f.(reason := why)]
  {
    hide Coherent, Without, Find, Conv, Canon;
    match FateOf(cfg, s, p)
    case Fresh =>
      OpenCoherent(cfg, s, p.key, 0, false);
    case Continues =>
    case Ends(why) =>
      var k := Find(s.table, p.key).k;
      assert k in s.table;
      CloseCoherent(cfg, s, k, why);
      CloseUnindexes(cfg, s, p.key, why);
      OpenCoherent(cfg, Close(s, k, why), p.key, s.table[k].fid, why == Active && cfg.silk);
  }

  /** One accepted packet: which flow id its flow has, whether it is marked as continued, what it
      holds, and which flows are closed, in order and for which reason. */
  lemma PacketLabels(cfg: Config, s: Tab, p: Packet)
    requires Coherent(cfg, s) && Numbered(s) && s.ctime <= p.ptime
    ensures
      var s' := PacketStep(cfg, s, p);
      var at := Find(s'.table, p.key);
      var closed := at.NotFound?;
      && (closed ==> s'.cq != [])
      && var g := Latest(s', p.key);
      && g.fid > 0 && (closed ==> g.reason == Closed)
      && match FateOf(cfg, s, p)
         case Fresh =>
           && g.fid == s.nextFid && s'.nextFid == s.nextFid + 1 && !g.cont && g.hist == [p]
           && s'.cq == s.cq + (if closed then [g] else [])
         case Continues =>
           var f := s.table[Find(s.table, p.key).k];
           && g.fid == f.fid && s'.nextFid == s.nextFid && g.cont == f.cont && g.hist == f.hist + [p]
           && s'.cq == s.cq + (if closed then [g] else [])
         case Ends(why) =>
           var f := s.table[Find(s.table, p.key).k];
           && g.fid == f.fid && s'.nextFid == s.nextFid && g.cont == (why == Active && cfg.silk) && g.hist == [p]
           && s'.cq == s.cq + [f.(reason := why)] + (if closed then [g] else [])
  {
    hide Indexed, Queued, Recency, AllLive, AllEnded, Place, Absorb, Find, FateOf, Numbered;
    var s1 := Accept(s, p);
    AcceptCoherent(cfg, s, p);
    AcceptLabels(cfg, s, p);
    PlaceIsFound(cfg, s1, p);
    PlaceLabels(cfg, s1, p);
    PlacedNumber(cfg, s1, p);
    AbsorbLabels(cfg, s, p);
  }

  lemma AcceptLabels(cfg: Config, s: Tab, p: Packet)
    requires Numbered(s)
    ensures Numbered(Accept(s, p)) && FateOf(cfg, Accept(s, p), p) == FateOf(cfg, s, p)
  {
  }

  lemma PlacedNumber(cfg: Config, s: Tab, p: Packet)
    requires Coherent(cfg, s) && Numbered(s)
    ensures Find(Place(cfg, s, p).table, p.key).At?
    ensures Place(cfg, s, p).table[Find(Place(cfg, s, p).table, p.key).k].fid > 0
  {
    PlaceLabels(cfg, s, p);
    hide Coherent, Place;
  }

  lemma PlacedIndexed(cfg: Config, s: Tab, p: Packet)
    requires Coherent(cfg, s)
    ensures
      var t := Place(cfg, s, p).table;
      Indexed(t) && Find(t, p.key).At? && Conv(Find(t, p.key).k) == Conv(p.key)
  {
    hide Place, Conv, Canon, Find;
    PlaceIsFound(cfg, s, p);
    if Restarts(cfg, s, p) {
      VacatedCoherent(cfg, s, p);
      var v := Vacated(cfg, s, p);
      var fid: nat, cont :| Place(cfg, s, p) == Open(v, p.key, fid, cont);
      OpenCoherent(cfg, v, p.key, fid, cont);
      ReverseLaws(p.key);
    } else {
      PlaceSame(cfg, s, p);
      FoundFacts(cfg, s, p);
    }
  }

  lemma PlaceSame(cfg: Config, s: Tab, p: Packet)
    requires !Restarts(cfg, s, p)
    ensures Place(cfg, s, p) == s
  {
  }

  /** Accounting the packet keeps id and mark, and closes the flow or leaves it active. */
  lemma AbsorbLabels(cfg: Config, s: Tab, p: Packet)
    requires Coherent(cfg, s) && s.ctime <= p.ptime
    ensures
      var s2, s' := Place(cfg, Accept(s, p), p), PacketStep(cfg, s, p);
      && Find(s2.table, p.key).At?
      && (Find(s'.table, p.key).NotFound? ==> s'.cq != [])
      && var f, g := s2.table[Find(s2.table, p.key).k], Latest(s', p.key);
      && g.fid == f.fid && g.cont == f.cont && g.hist == f.hist + [p] && s'.nextFid == s2.nextFid
      && s'.cq == s2.cq + (if Find(s'.table, p.key).NotFound? then [g] else [])
      && (Find(s'.table, p.key).NotFound? ==> g.reason == Closed)
  {
    hide Indexed, Queued, Recency, AllLive, AllEnded, Place, Find, Conv, Count, TcpStep, Finished, Without;
    var s1 := Accept(s, p);
    AcceptCoherent(cfg, s, p);
    PlaceIsFound(cfg, s1, p);
    PlacedIndexed(cfg, s1, p);
    var s2 := Place(cfg, s1, p);
    var at := Find(s2.table, p.key);
    var f := Account(s2.table[at.k], p, at.back);
    var t := s2.table[at.k := f];
    FindUpdate(s2.table, at.k, f, p.key);
    FindRemove(s2.table, at.k, p.key);
    UpdateThenRemove(s2.table, at.k, f);
  }

  lemma FindUpdate(t: map<FlowKey, Flow>, x: FlowKey, f: Flow, key: FlowKey)
    requires x in t
    ensures Find(t[x := f], key) == Find(t, key)
  {
  }

  // ---- flow ids name conversations ----

  ghost predicate Held(s: Tab, f: Flow) {
    f in s.freed || f in s.cq || f in s.table.Values
  }

  /** Ids are positive and drawn already, and flows with the same id belong to one conversation. */
  ghost predicate Named(s: Tab) {
    && s.nextFid > 0
    && (forall f :: Held(s, f) ==> 0 < f.fid < s.nextFid)
    && (forall f, g :: Held(s, f) && Held(s, g) && f.fid == g.fid ==> Conv(f.key) == Conv(g.key))
  }

  /** A flow of the same id and conversation was there before. */
  ghost predicate Known(s: Tab, f: Flow) {
    exists g :: Held(s, g) && g.fid == f.fid && Conv(g.key) == Conv(f.key)
  }

  /** Steps that bring at most one new id, for flows of one conversation. */
  lemma NamedFrom(s: Tab, s': Tab, c: set<FlowKey>)
    requires Named(s) && s.nextFid <= s'.nextFid
    requires forall f :: Held(s', f) ==> Known(s, f) || (f.fid == s.nextFid < s'.nextFid && Conv(f.key) == c)
    ensures Named(s')
  {
    hide Held, Conv;
    forall f | Held(s', f)
      ensures 0 < f.fid < s'.nextFid
    {
      assert Known(s, f) || f.fid == s.nextFid;
    }
    forall f, g | Held(s', f) && Held(s', g) && f.fid == g.fid
      ensures Conv(f.key) == Conv(g.key)
    {
      assert Known(s, f) || f.fid == s.nextFid;
      assert Known(s, g) || g.fid == s.nextFid;
    }
  }

  lemma NamedNumbers(s: Tab)
    requires Named(s)
    ensures Numbered(s)
  {
    forall k | k in s.table
      ensures s.table[k].fid > 0
    {
      assert Held(s, s.table[k]);
    }
  }

  lemma CloseNamed(s: Tab, k: FlowKey, why: EndReason)
    requires Named(s) && k in s.table
    ensures Named(Close(s, k, why))
  {
    var s' := Close(s, k, why);
    var f := s.table[k];
    assert Held(s, f);
    forall h | Held(s', h)
      ensures Known(s, h)
    {
      if h == f.(reason := why) {
        assert Held(s, f);
      } else {
        assert Held(s, h);
      }
    }
    NamedFrom(s, s', {});
  }

  lemma {:induction false} CloseAllNamed(s: Tab, ks: seq<FlowKey>, why: EndReason)
    requires Named(s)
    ensures Named(CloseAll(s, ks, why))
    decreases |ks|
  {
    hide Named, Close;
    if ks != [] {
      if ks[0] in s.table {
        CloseNamed(s, ks[0], why);
        CloseAllNamed(Close(s, ks[0], why), ks[1..], why);
      } else {
        CloseAllNamed(s, ks[1..], why);
      }
    }
  }

  lemma EmitNamed(cfg: Config, s: Tab, room: nat)
    requires Named(s) && s.cq != []
    ensures Named(Emit(cfg, s, room))
  {
    hide Exports;
    var s' := Emit(cfg, s, room);
    assert s.cq == [s.cq[0]] + s'.cq;
    forall h | Held(s', h)
      ensures Known(s, h)
    {
      assert Held(s, h);
    }
    NamedFrom(s, s', {});
  }

  lemma {:induction false} DrainNamed(cfg: Config, s: Tab, room: nat)
    requires Named(s)
    ensures Named(Drain(cfg, s, room).tab)
    decreases |s.cq|
  {
    hide Named, Emit, Exports;
    if s.cq != [] {
      EmitNamed(cfg, s, room);
      DrainSmaller(cfg, s, room);
      var n := |Exports(cfg, s.cq[0])|;
      var s' := Emit(cfg, s, room);
      if room >= n {
        DrainNamed(cfg, s', room - n);
        assert Drain(cfg, s, room) == Drain(cfg, s', room - n);
      } else {
        assert Drain(cfg, s, room).tab == s';
      }
    }
  }

  lemma FlushNamed(cfg: Config, s: Tab, close: bool, room: nat)
    requires Named(s)
    ensures Named(FlushStep(cfg, s, close, room).tab)
  {
    if !RateLimited(s, close) {
      var s0 := BeginFlush(s);
      assert Named(s0) by {
        assert forall f :: Held(s0, f) <==> Held(s, f);
      }
      hide Named, CloseAll, Drain, BeginFlush;
      CloseAllNamed(s0, IdleKeys(cfg, s0, s0.aq), Idle);
      var s1 := CloseAll(s0, IdleKeys(cfg, s0, s0.aq), Idle);
      CloseAllNamed(s1, ExcessKeys(cfg, s1), Resource);
      var s2 := CloseAll(s1, ExcessKeys(cfg, s1), Resource);
      CloseAllNamed(s2, s2.aq, Forced);
      DrainNamed(cfg, Expire(cfg, s0, close), room);
    }
  }

  /** A packet leaves the other active flows as they are. */
  lemma PacketTable(cfg: Config, s: Tab, p: Packet, x: FlowKey)
    requires Coherent(cfg, s) && s.ctime <= p.ptime && x in PacketStep(cfg, s, p).table
    ensures
      var s' := PacketStep(cfg, s, p);
      || (x in s.table && s'.table[x] == s.table[x])
      || (Find(s'.table, p.key).At? && s'.table[x] == Latest(s', p.key))
  {
    hide Indexed, Queued, Recency, AllLive, AllEnded, Conv, Canon, Reverse, Count, TcpStep, Finished, Without, Outlived;
    var s1 := Accept(s, p);
    AcceptCoherent(cfg, s, p);
    PlaceIsFound(cfg, s1, p);
    PlaceOnly(cfg, s1, p, x);
    var s2 := Place(cfg, s1, p);
    var at := Find(s2.table, p.key);
    FindUpdate(s2.table, at.k, Account(s2.table[at.k], p, at.back), p.key);
    hide Place, Find;
  }

  lemma PlaceOnly(cfg: Config, s: Tab, p: Packet, x: FlowKey)
    requires Coherent(cfg, s)
    ensures
      var t := Place(cfg, s, p).table;
      && Find(t, p.key).At?
      && (x in t && x != Find(t, p.key).k ==> x in s.table && t[x] == s.table[x])
  {
    hide Coherent, Without, Conv, Canon, Reverse, Find, Outlived;
    PlaceLabels0(cfg, s, p);
  }

  /** A restarted flow is indexed under the packet's own key. */
  lemma PlaceLabels0(cfg: Config, s: Tab, p: Packet)
    requires Coherent(cfg, s)
    ensures
      var t := Place(cfg, s, p).table;
      Find(t, p.key) == if Restarts(cfg, s, p) then At(Canon(p.key), false) else Find(s.table, p.key)
  {
    hide Place, Conv, Canon, Find;
    if Restarts(cfg, s, p) {
      VacatedCoherent(cfg, s, p);
      var v := Vacated(cfg, s, p);
      var fid: nat, cont :| Place(cfg, s, p) == Open(v, p.key, fid, cont);
      OpenCoherent(cfg, v, p.key, fid, cont);
    } else {
      PlaceSame(cfg, s, p);
    }
  }

  /** The flow of a packet belongs to its conversation. */
  lemma LatestConv(cfg: Config, s: Tab, p: Packet)
    requires Coherent(cfg, s) && (Find(s.table, p.key).NotFound? ==> s.cq != [])
    requires Latest(s, p.key).hist != [] && Latest(s, p.key).hist[|Latest(s, p.key).hist| - 1] == p
    ensures Conv(Latest(s, p.key).key) == Conv(p.key) && Held(s, Latest(s, p.key))
  {
    var g := Latest(s, p.key);
    if Find(s.table, p.key).NotFound? {
      assert Ended(cfg, s.cq[|s.cq| - 1]);
    } else {
      assert Live(cfg, s.table[Find(s.table, p.key).k]);
    }
    LegitSummary(cfg, g);
    assert Unbroken(cfg, g.hist);
    hide Legit, Coherent, Find, Summarize, Breaks;
  }

  /** A flow held after a packet is the packet's, or was held before, up to its end reason. */
  lemma PacketHeld(cfg: Config, s: Tab, p: Packet, h: Flow)
    requires Coherent(cfg, s) && Numbered(s) && s.ctime <= p.ptime && Held(PacketStep(cfg, s, p), h)
    ensures
      var s' := PacketStep(cfg, s, p);
      && (Find(s'.table, p.key).NotFound? ==> s'.cq != [])
      && (h == Latest(s', p.key) || exists f, why :: Held(s, f) && h == f.(reason := why))
  {
    PacketLabels(cfg, s, p);
    PacketFreed(cfg, s, p);
    var s' := PacketStep(cfg, s, p);
    var g := Latest(s', p.key);
    if h != g {
      if h in s'.table.Values {
        var x :| x in s'.table && s'.table[x] == h;
        PacketTable(cfg, s, p, x);
        assert Held(s, h) && h == h.(reason := h.reason);
      } else if Held(s, h) {
        assert h == h.(reason := h.reason);
      } else {
        var f := s.table[Find(s.table, p.key).k];
        assert Held(s, f);
        assert h == f.(reason := h.reason);
      }
    }
    hide Coherent, PacketStep, Find, Numbered, Conv;
  }

  /** The packet's flow continues a known id, or has the next one. */
  lemma LatestKnown(cfg: Config, s: Tab, p: Packet)
    requires Coherent(cfg, s) && Named(s) && s.ctime <= p.ptime
    ensures
      var s' := PacketStep(cfg, s, p);
      && (Find(s'.table, p.key).NotFound? ==> s'.cq != [])
      && s.nextFid <= s'.nextFid
      && var g := Latest(s', p.key);
      && Conv(g.key) == Conv(p.key)
      && (Known(s, g) || g.fid == s.nextFid < s'.nextFid)
  {
    hide Indexed, Queued, Recency, AllLive, AllEnded, PacketStep, Find, Conv, FateOf, Latest, Numbered;
    var s' := PacketStep(cfg, s, p);
    NamedNumbers(s);
    PacketLabels(cfg, s, p);
    PacketCoherent(cfg, s, p);
    LatestConv(cfg, s', p);
    FateFound(cfg, s, p);
    if !FateOf(cfg, s, p).Fresh? {
      FoundFacts(cfg, s, p);
      FoundKnown(s, Find(s.table, p.key).k, Latest(s', p.key));
    }
  }

  lemma FateFound(cfg: Config, s: Tab, p: Packet)
    ensures FateOf(cfg, s, p).Fresh? <==> Find(s.table, p.key).NotFound?
  {
    hide Find;
  }

  lemma FoundKnown(s: Tab, k: FlowKey, g: Flow)
    requires k in s.table && g.fid == s.table[k].fid && Conv(g.key) == Conv(s.table[k].key)
    ensures Known(s, g)
  {
    assert Held(s, s.table[k]);
  }

  lemma PacketNamed(cfg: Config, s: Tab, p: Packet)
    requires Coherent(cfg, s) && Named(s) && s.ctime <= p.ptime
    ensures Named(PacketStep(cfg, s, p))
  {
    hide Indexed, Queued, Recency, AllLive, AllEnded, PacketStep, Find, Conv, Held, FateOf, Latest, Numbered;
    var s' := PacketStep(cfg, s, p);
    NamedNumbers(s);
    LatestKnown(cfg, s, p);
    forall h | Held(s', h)
      ensures Known(s, h) || (h.fid == s.nextFid < s'.nextFid && Conv(h.key) == Conv(p.key))
    {
      PacketHeld(cfg, s, p, h);
    }
    NamedFrom(s, s', Conv(p.key));
  }

  lemma RejectNamed(cfg: Config, s: Tab, p: Packet)
    requires Coherent(cfg, s) && Named(s) && p.ptime < s.ctime
    ensures Named(PacketStep(cfg, s, p))
  {
    assert forall f :: Held(PacketStep(cfg, s, p), f) <==> Held(s, f);
  }

  /** In every run flow ids are positive, and two flows with the same id belong to one conversation. */
  lemma {:induction false} IdsNameConversations(cfg: Config, es: seq<Event>)
    ensures Named(Run(cfg, es))
  {
    if es != [] {
      hide Named, PacketStep, FlushStep, Coherent;
      var s := Run(cfg, es[..|es| - 1]);
      IdsNameConversations(cfg, es[..|es| - 1]);
      match es[|es| - 1]
      case Arrive(p) =>
        if s.ctime <= p.ptime {
          PacketNamed(cfg, s, p);
        } else {
          RejectNamed(cfg, s, p);
        }
      case Flush(close, room) => FlushNamed(cfg, s, close, room);
    } else {
      NothingNamed();
    }
  }

  lemma NothingNamed()
    ensures Named(EmptyTab)
  {
  }

  lemma PacketFreed(cfg: Config, s: Tab, p: Packet)
    requires Coherent(cfg, s)
    ensures PacketStep(cfg, s, p).freed == s.freed
  {
    hide Find, Account, Finished, Outlived, Without, Indexed, Queued, Recency, AllLive, AllEnded;
  }
}
