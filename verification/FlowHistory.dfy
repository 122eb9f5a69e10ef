/** Which packets the flows of one conversation hold, in the order the flows began, and how
    each step of the table changes that list. */
module FlowHistory {
  import opened FlowKeys
  import opened Segments
  import opened Queues
  import opened FlowMachine
  import opened FlowInvariant

  /** Histories of the flows of conversation c in a list of flows. */
  function ConvHists(c: set<FlowKey>, fs: seq<Flow>): seq<seq<Packet>> {
    if fs == [] then []
    else
      var f := fs[|fs| - 1];
      ConvHists(c, fs[..|fs| - 1]) + (if Conv(f.key) == c then [f.hist] else [])
  }

  function ActiveHist(t: map<FlowKey, Flow>, k: FlowKey): seq<seq<Packet>> {
    match Find(t, k)
    case NotFound => []
    case At(x, _) => [t[x].hist]
  }

  /** All flows a conversation ever had: exported, waiting for export, active. */
  function Histories(s: Tab, k: FlowKey): seq<seq<Packet>> {
    ConvHists(Conv(k), s.freed + s.cq) + ActiveHist(s.table, k)
  }

  lemma ConvHistsSnoc(c: set<FlowKey>, fs: seq<Flow>, f: Flow)
    ensures ConvHists(c, fs + [f]) == ConvHists(c, fs) + (if Conv(f.key) == c then [f.hist] else [])
  {
    assert (fs + [f])[..|fs|] == fs;
  }

  // ---- looking up a conversation ----

  /** In a coherent index a conversation has at most one flow, and lookup finds it. */
  lemma FindByConv(t: map<FlowKey, Flow>, k: FlowKey, x: FlowKey)
    requires Indexed(t) && x in t
    ensures Conv(x) == Conv(k) <==> Find(t, k).At? && Find(t, k).k == x
  {
    ReverseLaws(t[x].key);
    ReverseLaws(k);
    ConvClasses(t[x].key, k);
    if Find(t, k).At? {
      var y := Find(t, k).k;
      ReverseLaws(t[y].key);
      ConvClasses(t[y].key, k);
    }
  }

  lemma FindRemove(t: map<FlowKey, Flow>, x: FlowKey, k: FlowKey)
    requires Indexed(t) && x in t
    ensures Find(t - {x}, k) == if Conv(x) == Conv(k) then NotFound else Find(t, k)
  {
    FindByConv(t, k, x);
    if Conv(x) == Conv(k) {
      forall y | y in t - {x}
        ensures y !in Conv(k)
      {
        if y in Conv(k) {
          ReverseLaws(t[y].key);
          ConvClasses(t[y].key, k);
          assert false;
        }
      }
    }
  }

  lemma FindOther(t: map<FlowKey, Flow>, x: FlowKey, f: Flow, k: FlowKey)
    requires Canon(f.key) == x && Conv(x) != Conv(k)
    ensures Find(t[x := f], k) == Find(t, k)
  {
    ReverseLaws(f.key);
    ReverseLaws(k);
    ConvClasses(f.key, k);
    assert x !in Conv(k);
    assert Canon(k) in Conv(k) && Canon(Reverse(k)) in Conv(k);
  }

  // ---- closing and exporting move flows but keep every history ----

  lemma CloseHistories(s: Tab, x: FlowKey, why: EndReason, k: FlowKey)
    requires Indexed(s.table) && x in s.table
    ensures Histories(Close(s, x, why), k) == Histories(s, k)
  {
    var f := s.table[x].(reason := why);
    ReverseLaws(f.key);
    assert s.freed + (s.cq + [f]) == (s.freed + s.cq) + [f];
    ConvHistsSnoc(Conv(k), s.freed + s.cq, f);
    FindRemove(s.table, x, k);
    FindByConv(s.table, k, x);
  }

  lemma {:induction false} CloseAllHistories(s: Tab, ks: seq<FlowKey>, why: EndReason, k: FlowKey)
    requires Structured(s)
    ensures Histories(CloseAll(s, ks, why), k) == Histories(s, k)
    decreases |ks|
  {
    if ks != [] {
      if ks[0] in s.table {
        CloseHistories(s, ks[0], why, k);
        CloseStructured(s, ks[0], why);
        CloseAllHistories(Close(s, ks[0], why), ks[1..], why, k);
      } else {
        CloseAllHistories(s, ks[1..], why, k);
      }
    }
  }

  lemma EmitHistories(cfg: Config, s: Tab, room: nat, k: FlowKey)
    requires s.cq != []
    ensures Histories(Emit(cfg, s, room), k) == Histories(s, k)
  {
    assert s.freed + [s.cq[0]] + s.cq[1..] == s.freed + s.cq;
  }

  lemma {:induction false} DrainHistories(cfg: Config, s: Tab, room: nat, k: FlowKey)
    ensures Histories(Drain(cfg, s, room).tab, k) == Histories(s, k)
    ensures Drain(cfg, s, room).tab.table == s.table
    ensures Drain(cfg, s, room).tab.ctime == s.ctime
    decreases |s.cq|
  {
    if s.cq != [] {
      EmitHistories(cfg, s, room, k);
      var n := |Exports(cfg, s.cq[0])|;
      var s' := Emit(cfg, s, room);
      if room >= n {
        DrainHistories(cfg, s', room - n, k);
        assert Drain(cfg, s, room) == Drain(cfg, s', room - n);
      } else {
        assert Drain(cfg, s, room).tab == s';
      }
    }
  }

  lemma ExpireHistories(cfg: Config, s: Tab, close: bool, k: FlowKey)
    requires Coherent(cfg, s)
    ensures Histories(Expire(cfg, s, close), k) == Histories(s, k)
  {
    var s1 := CloseAll(s, IdleKeys(cfg, s, s.aq), Idle);
    CloseAllHistories(s, IdleKeys(cfg, s, s.aq), Idle, k);
    CloseAllCoherent(cfg, s, IdleKeys(cfg, s, s.aq), Idle);
    var s2 := CloseAll(s1, ExcessKeys(cfg, s1), Resource);
    CloseAllHistories(s1, ExcessKeys(cfg, s1), Resource, k);
    CloseAllCoherent(cfg, s1, ExcessKeys(cfg, s1), Resource);
    CloseAllHistories(s2, s2.aq, Forced, k);
  }

  /** No flush call changes which packets the flows of a conversation hold. */
  lemma FlushHistories(cfg: Config, s: Tab, close: bool, room: nat, k: FlowKey)
    requires Coherent(cfg, s)
    ensures Histories(FlushStep(cfg, s, close, room).tab, k) == Histories(s, k)
  {
    if !RateLimited(s, close) {
      var s1 := BeginFlush(s);
      assert Coherent(cfg, s1);
      ExpireHistories(cfg, s1, close, k);
      DrainHistories(cfg, Expire(cfg, s1, close), room, k);
    }
  }

  // ---- a packet extends one history of its own conversation ----

  lemma SettleHistories(s: Tab, x: FlowKey, f: Flow, k: FlowKey)
    requires Indexed(s.table) && x in s.table && Canon(f.key) == x
    ensures Histories(Settle(s, x, f), k)
         == ConvHists(Conv(k), s.freed + s.cq) + (if Conv(x) == Conv(k) then [f.hist] else ActiveHist(s.table, k))
  {
    hide Indexed, Conv, Canon, Find, Finished, ConvHists, Without;
    var s1 := s.(table := s.table[x := f]);
    IndexedUpdate(s.table, x, f);
    FindByConv(s1.table, k, x);
    if Conv(x) != Conv(k) {
      FindOther(s.table, x, f, k);
      FindByConv(s.table, k, x);
    }
    if Finished(f.state) {
      CloseHistories(s1, x, Closed, k);
    }
  }

  /** The packet joins the last history if its flow continues, and otherwise begins one. */
  ghost function Extended(restart: bool, hs: seq<seq<Packet>>, p: Packet): seq<seq<Packet>> {
    if restart || hs == [] then hs + [[p]]
    else hs[..|hs| - 1] + [hs[|hs| - 1] + [p]]
  }

  lemma StartHistories(cfg: Config, s: Tab, p: Packet, fid: nat, cont: bool, k: FlowKey)
    requires Coherent(cfg, s) && Find(s.table, p.key).NotFound? && s.ctime == p.ptime
    ensures
      var s1 := Open(s, p.key, fid, cont);
      && Find(s1.table, p.key).At? && s1.table[Find(s1.table, p.key).k].stime <= p.ptime
      && Histories(Absorb(s1, p), k)
         == if Conv(p.key) == Conv(k) then Histories(s, k) + [[p]] else Histories(s, k)
  {
    hide Coherent, Indexed, Find, Conv, ContentsBut, Settle, ConvHists, Distinct, Recency, Timely;
    var s1 := Open(s, p.key, fid, cont);
    var x := Canon(p.key);
    StartFlow(cfg, s, p, fid, cont);
    OpenCoherent(cfg, s, p.key, fid, cont);
    ReverseLaws(p.key);
    IndexOf(cfg, s);
    var f := Account(s1.table[x], p, false);
    SettleHistories(s1, x, f, k);
    if Conv(p.key) != Conv(k) {
      FindOther(s.table, x, s1.table[x], k);
    } else {
      FindSameConv(s.table, p.key, k);
      assert f.hist == [p];
    }
  }

  lemma IndexOf(cfg: Config, s: Tab)
    requires Coherent(cfg, s)
    ensures Indexed(s.table)
  {
  }

  lemma FindSameConv(t: map<FlowKey, Flow>, a: FlowKey, b: FlowKey)
    requires Indexed(t) && Conv(a) == Conv(b)
    ensures Find(t, a).NotFound? <==> Find(t, b).NotFound?
    ensures Find(t, a).At? ==> Find(t, a).k == Find(t, b).k
  {
    if Find(t, a).At? {
      FindByConv(t, a, Find(t, a).k);
      FindByConv(t, b, Find(t, a).k);
    }
  }

  lemma ContinueHistories(cfg: Config, s: Tab, p: Packet, k: FlowKey)
    requires Coherent(cfg, s) && Find(s.table, p.key).At? && s.ctime == p.ptime
    requires s.table[Find(s.table, p.key).k].stime <= p.ptime
    ensures Histories(Absorb(s, p), k)
         == if Conv(p.key) == Conv(k) then Extended(false, Histories(s, k), p) else Histories(s, k)
    ensures Conv(p.key) == Conv(k) ==> ActiveHist(s.table, k) == [s.table[Find(s.table, p.key).k].hist]
  {
    var at := Find(s.table, p.key);
    var f0 := s.table[at.k];
    var f := Account(f0, p, at.back);
    FoundFacts(cfg, s, p);
    SettleHistories(s, at.k, f, k);
    if Conv(p.key) == Conv(k) {
      FindSameConv(s.table, p.key, k);
      var hs := Histories(s, k);
      assert hs[..|hs| - 1] == ConvHists(Conv(k), s.freed + s.cq);
    }
  }

  /** One accepted packet changes the histories of its own conversation only, by one packet. */
  lemma PacketHistories(cfg: Config, s: Tab, p: Packet, k: FlowKey)
    requires Coherent(cfg, s) && s.ctime <= p.ptime
    ensures
      var restart := Restarts(cfg, Accept(s, p), p);
      Histories(PacketStep(cfg, s, p), k)
        == if Conv(p.key) == Conv(k) then Extended(restart, Histories(s, k), p) else Histories(s, k)
  {
    hide Histories, Vacated, Place, Find, Conv, Absorb, Indexed, Queued, Recency, AllLive, AllEnded, Outlived;
    var s1 := Accept(s, p);
    AcceptCoherent(cfg, s, p);
    PlaceIsFound(cfg, s1, p);
    AcceptHistories(s, p, k);
    if Restarts(cfg, s1, p) {
      VacatedCoherent(cfg, s1, p);
      VacatedHistories(cfg, s1, p, k);
      var v := Vacated(cfg, s1, p);
      var fid: nat, cont :| Place(cfg, s1, p) == Open(v, p.key, fid, cont);
      StartHistories(cfg, v, p, fid, cont, k);
    } else {
      FoundFacts(cfg, s1, p);
      StaysPut(cfg, s1, p);
      ContinueHistories(cfg, s1, p, k);
    }
  }

  lemma AcceptHistories(s: Tab, p: Packet, k: FlowKey)
    ensures Histories(Accept(s, p), k) == Histories(s, k)
  {
  }

  lemma StaysPut(cfg: Config, s: Tab, p: Packet)
    requires !Restarts(cfg, s, p)
    ensures Place(cfg, s, p) == s
  {
  }

  lemma VacatedHistories(cfg: Config, s: Tab, p: Packet, k: FlowKey)
    requires Coherent(cfg, s)
    ensures Histories(Vacated(cfg, s, p), k) == Histories(s, k)
  {
    hide Histories, Conv, Queued, Recency, AllLive, AllEnded, Outlived;
    if Find(s.table, p.key).At? {
      CloseHistories(s, Find(s.table, p.key).k, Idle, k);
      CloseHistories(s, Find(s.table, p.key).k, Active, k);
    }
  }
}
