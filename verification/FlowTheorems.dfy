/** What the exported records say: they do not depend on when the table is flushed, they
    account for every packet and octet, and the close queue stays short. */
module FlowTheorems {
  import opened FlowKeys
  import opened Segments
  import opened Queues
  import opened FlowMachine
  import opened FlowInvariant
  import opened FlowHistory
  import opened FlowRuns

  // ---- records of a list of flows ----

  function Records(fs: seq<Flow>): seq<Record> {
    if fs == [] then [] else Records(fs[..|fs| - 1]) + [ToRecord(fs[|fs| - 1])]
  }

  function RecordsOf(c: set<FlowKey>, rs: seq<Record>): seq<Record> {
    if rs == [] then []
    else
      var r := rs[|rs| - 1];
      RecordsOf(c, rs[..|rs| - 1]) + (if Conv(r.key) == c then [r] else [])
  }

  ghost predicate AllOrdered(segs: seq<seq<Packet>>) {
    forall i :: 0 <= i < |segs| ==> segs[i] != [] && Ordered(segs[i])
  }

  ghost function Summaries(segs: seq<seq<Packet>>): seq<Record>
    requires AllOrdered(segs)
  {
    if segs == [] then [] else Summaries(segs[..|segs| - 1]) + [Summarize(segs[|segs| - 1])]
  }

  lemma SummariesSnoc(segs: seq<seq<Packet>>, seg: seq<Packet>)
    requires AllOrdered(segs) && seg != [] && Ordered(seg)
    ensures AllOrdered(segs + [seg]) && Summaries(segs + [seg]) == Summaries(segs) + [Summarize(seg)]
  {
    assert (segs + [seg])[..|segs|] == segs;
  }

  lemma RecordsOfSnoc(c: set<FlowKey>, rs: seq<Record>, r: Record)
    ensures RecordsOf(c, rs + [r]) == RecordsOf(c, rs) + (if Conv(r.key) == c then [r] else [])
  {
    assert (rs + [r])[..|rs|] == rs;
  }

  /** A record is the summary of its flow's history. */
  ghost predicate Faithful(f: Flow) {
    f.hist != [] && Ordered(f.hist) && ToRecord(f) == Summarize(f.hist)
  }

  lemma {:induction false} FaithfulRecords(fs: seq<Flow>, c: set<FlowKey>)
    requires forall i :: 0 <= i < |fs| ==> Faithful(fs[i])
    ensures AllOrdered(ConvHists(c, fs))
    ensures RecordsOf(c, Records(fs)) == Summaries(ConvHists(c, fs))
  {
    if fs != [] {
      var n := |fs| - 1;
      var f := fs[n];
      FaithfulRecords(fs[..n], c);
      assert Faithful(f);
      hide Summarize, Ordered, Summaries, RecordsOf, AllOrdered;
      RecordsOfSnoc(c, Records(fs[..n]), ToRecord(f));
      if Conv(f.key) == c {
        SummariesSnoc(ConvHists(c, fs[..n]), f.hist);
      } else {
        assert ConvHists(c, fs) == ConvHists(c, fs[..n]);
      }
    }
  }

  /** The records of ended flows of a conversation are the summaries of their histories. */
  lemma RecordsAreSummaries(cfg: Config, fs: seq<Flow>, c: set<FlowKey>)
    requires AllEnded(cfg, fs)
    ensures AllOrdered(ConvHists(c, fs))
    ensures RecordsOf(c, Records(fs)) == Summaries(ConvHists(c, fs))
  {
    forall i | 0 <= i < |fs|
      ensures Faithful(fs[i])
    {
      assert Ended(cfg, fs[i]);
    }
    FaithfulRecords(fs, c);
  }

  // ---- the final flush ----

  lemma {:induction false} DrainEmpties(cfg: Config, s: Tab, room: nat)
    ensures Drain(cfg, s, room).ok <==> Drain(cfg, s, room).tab.failed == s.failed
    ensures |Drain(cfg, s, room).tab.failed| >= |s.failed|
    ensures Drain(cfg, s, room).ok ==> Drain(cfg, s, room).tab.cq == []
    decreases |s.cq|
  {
    if s.cq != [] {
      var n := |Exports(cfg, s.cq[0])|;
      var s' := Emit(cfg, s, room);
      if room >= n {
        DrainEmpties(cfg, s', room - n);
        assert Drain(cfg, s, room) == Drain(cfg, s', room - n);
        assert Exports(cfg, s.cq[0])[n..] == [];
      } else {
        assert Drain(cfg, s, room) == Flushed(s', false);
        assert |s'.failed| > |s.failed|;
      }
    }
  }

  /** A closing flush leaves no flow behind. */
  lemma CloseEmpties(cfg: Config, s: Tab)
    requires Coherent(cfg, s)
    ensures Expire(cfg, s, true).table == map[]
  {
    var s1 := CloseAll(s, IdleKeys(cfg, s, s.aq), Idle);
    CloseAllCoherent(cfg, s, IdleKeys(cfg, s, s.aq), Idle);
    var s2 := CloseAll(s1, ExcessKeys(cfg, s1), Resource);
    CloseAllCoherent(cfg, s1, ExcessKeys(cfg, s1), Resource);
    var s3 := CloseAll(s2, s2.aq, Forced);
    forall x | x in s3.table
      ensures false
    {
      CloseAllTable(s2, s2.aq, Forced, x);
    }
    assert s3.table.Keys == {};
  }

  lemma ExpireFailed(cfg: Config, s: Tab, close: bool)
    ensures Expire(cfg, s, close).failed == s.failed
    ensures Expire(cfg, s, close).written == s.written
    ensures Expire(cfg, s, close).freed == s.freed
  {
    CloseAllOutput(s, IdleKeys(cfg, s, s.aq), Idle);
    var s1 := CloseAll(s, IdleKeys(cfg, s, s.aq), Idle);
    CloseAllOutput(s1, ExcessKeys(cfg, s1), Resource);
    var s2 := CloseAll(s1, ExcessKeys(cfg, s1), Resource);
    CloseAllOutput(s2, s2.aq, Forced);
  }

  lemma {:induction false} CloseAllOutput(s: Tab, ks: seq<FlowKey>, why: EndReason)
    ensures
      var s' := CloseAll(s, ks, why);
      s'.failed == s.failed && s'.written == s.written && s'.freed == s.freed && s'.stats == s.stats
    decreases |ks|
  {
    if ks != [] {
      CloseAllOutput(if ks[0] in s.table then Close(s, ks[0], why) else s, ks[1..], why);
    }
  }

  /** Everything a run exported once it ends with a closing flush whose writes succeed. */
  ghost function Finale(cfg: Config, es: seq<Event>, room: nat): Tab {
    FlushStep(cfg, Run(cfg, es), true, room).tab
  }

  /** A quiet run that ends with a successful closing flush has exported, conversation by
      conversation and in order, exactly the summaries of the greedy split. */
  lemma ExportIsGreedySplit(cfg: Config, es: seq<Event>, room: nat, k: FlowKey)
    requires Quiet(cfg, es) && Finale(cfg, es, room).failed == []
    ensures AllOrdered(Split(cfg, Talk(es, k)))
    ensures RecordsOf(Conv(k), Records(Finale(cfg, es, room).freed)) == Summaries(Split(cfg, Talk(es, k)))
    ensures Finale(cfg, es, room).cq == [] && Finale(cfg, es, room).table == map[]
  {
    hide Split, Run, Expire, Drain, ConvHists, Records, RecordsOf, Summaries, Talk;
    var s := Run(cfg, es);
    var t := Finale(cfg, es, room);
    QuietRunsAreGreedy(cfg, es, k);
    FlushHistories(cfg, s, true, room, k);
    FlushCoherent(cfg, s, true, room);
    var s0 := BeginFlush(s);
    var s1 := Expire(cfg, s0, true);
    CloseEmpties(cfg, s0);
    ExpireFailed(cfg, s0, true);
    DrainEmpties(cfg, s1, room);
    DrainHistories(cfg, s1, room, k);
    assert t == Drain(cfg, s1, room).tab;
    assert t.freed + t.cq == t.freed;
    assert Histories(t, k) == ConvHists(Conv(k), t.freed);
    RecordsAreSummaries(cfg, t.freed, Conv(k));
  }

  // ---- records as written: one per flow, or two in uniflow mode ----

  /** The records the output receives for one flow record. */
  function Halves(cfg: Config, r: Record): seq<Record> {
    if !cfg.uniflow then [r]
    else
      var fwd := r.(rval := NoTraffic, rdtime := 0);
      if r.rval.pkt == 0 then [fwd]
      else [fwd, Record(Reverse(r.key), (r.stime + r.rdtime) % 0x1_0000_0000_0000_0000, r.etime, 0,
                        r.rval, NoTraffic)]
  }

  function AllHalves(cfg: Config, rs: seq<Record>): seq<Record> {
    if rs == [] then [] else AllHalves(cfg, rs[..|rs| - 1]) + Halves(cfg, rs[|rs| - 1])
  }

  lemma {:induction false} RecordsAppend(a: seq<Flow>, b: seq<Flow>)
    ensures Records(a + b) == Records(a) + Records(b)
    decreases |b|
  {
    if b == [] {
      assert a + b == a;
    } else {
      RecordsAppend(a, b[..|b| - 1]);
      assert (a + b)[..|a + b| - 1] == a + b[..|b| - 1];
    }
  }

  lemma ExportRecords(cfg: Config, f: Flow)
    ensures Records(Exports(cfg, f)) == Halves(cfg, ToRecord(f))
  {
    assert Records([Uniflow(f)]) == Records([]) + [ToRecord(Uniflow(f))];
    assert Records([f]) == Records([]) + [ToRecord(f)];
    var two := [Uniflow(f), UniflowReverse(f)];
    assert two[..1] == [Uniflow(f)];
    assert Records(two) == Records([Uniflow(f)]) + [ToRecord(UniflowReverse(f))];
  }

  /** While no write has failed, the output holds exactly the records of the freed flows. */
  ghost predicate AllWritten(cfg: Config, s: Tab) {
    s.failed == [] ==> Records(s.written) == AllHalves(cfg, Records(s.freed))
  }

  lemma EmitWritten(cfg: Config, s: Tab, room: nat)
    requires s.cq != [] && AllWritten(cfg, s)
    ensures AllWritten(cfg, Emit(cfg, s, room))
  {
    var f := s.cq[0];
    var recs := Exports(cfg, f);
    var n := Min(room, |recs|);
    var s' := Emit(cfg, s, room);
    if s'.failed == [] {
      assert |s'.failed| == |s.failed| + |recs[n..]|;
      assert recs[..n] == recs;
      RecordsAppend(s.written, recs);
      RecordsAppend(s.freed, [f]);
      assert Records([f]) == Records([]) + [ToRecord(f)];
      var rs := Records(s.freed);
      assert (rs + [ToRecord(f)])[..|rs|] == rs;
      ExportRecords(cfg, f);
    }
  }

  lemma {:induction false} DrainWritten(cfg: Config, s: Tab, room: nat)
    requires AllWritten(cfg, s)
    ensures AllWritten(cfg, Drain(cfg, s, room).tab)
    decreases |s.cq|
  {
    if s.cq != [] {
      hide AllWritten, Emit, Exports;
      EmitWritten(cfg, s, room);
      var n := |Exports(cfg, s.cq[0])|;
      if room >= n {
        DrainSmaller(cfg, s, room);
        DrainWritten(cfg, Emit(cfg, s, room), room - n);
      }
    }
  }

  lemma {:induction false} RunWritten(cfg: Config, es: seq<Event>)
    ensures AllWritten(cfg, Run(cfg, es))
  {
    if es != [] {
      hide PacketStep, FlushStep, Records, AllHalves, Coherent;
      var s := Run(cfg, es[..|es| - 1]);
      RunWritten(cfg, es[..|es| - 1]);
      match es[|es| - 1]
      case Arrive(p) =>
        PacketOutput(cfg, s, p);
      case Flush(close, room) =>
        FlushWritten(cfg, s, close, room);
    } else {
      assert Records([]) == [] && AllHalves(cfg, []) == [];
    }
  }

  lemma FlushWritten(cfg: Config, s: Tab, close: bool, room: nat)
    requires AllWritten(cfg, s)
    ensures AllWritten(cfg, FlushStep(cfg, s, close, room).tab)
  {
    if !RateLimited(s, close) {
      hide Expire, Drain;
      var s0 := BeginFlush(s);
      ExpireFailed(cfg, s0, close);
      DrainWritten(cfg, Expire(cfg, s0, close), room);
    }
  }

  lemma PacketOutput(cfg: Config, s: Tab, p: Packet)
    requires Coherent(cfg, s)
    ensures
      var s' := PacketStep(cfg, s, p);
      s'.failed == s.failed && s'.written == s.written && s'.freed == s.freed
  {
    hide Find, Account, Finished, Outlived, Without, Indexed, Queued, Recency, AllLive, AllEnded;
  }

  // ---- equal records conversation by conversation are equal records ----

  lemma {:induction false} CountInConv(rs: seq<Record>, r: Record)
    ensures multiset(rs)[r] == multiset(RecordsOf(Conv(r.key), rs))[r]
  {
    if rs != [] {
      var n := |rs| - 1;
      CountInConv(rs[..n], r);
      assert rs == rs[..n] + [rs[n]];
    }
  }

  lemma SameConvsSameRecords(a: seq<Record>, b: seq<Record>)
    requires forall k :: RecordsOf(Conv(k), a) == RecordsOf(Conv(k), b)
    ensures multiset(a) == multiset(b)
  {
    forall r: Record
      ensures multiset(a)[r] == multiset(b)[r]
    {
      CountInConv(a, r);
      CountInConv(b, r);
      assert RecordsOf(Conv(r.key), a) == RecordsOf(Conv(r.key), b);
    }
  }

  lemma {:induction false} AllHalvesAppend(cfg: Config, a: seq<Record>, b: seq<Record>)
    ensures AllHalves(cfg, a + b) == AllHalves(cfg, a) + AllHalves(cfg, b)
    decreases |b|
  {
    hide Halves;
    if b == [] {
      assert a + b == a;
    } else {
      var n := |b| - 1;
      AllHalvesAppend(cfg, a, b[..n]);
      assert (a + b)[..|a + b| - 1] == a + b[..n];
      assert AllHalves(cfg, a + b) == AllHalves(cfg, a + b[..n]) + Halves(cfg, b[n]);
    }
  }

  /** Taking one record out takes out its halves. */
  lemma HalvesPick(cfg: Config, b: seq<Record>, i: nat)
    requires i < |b|
    ensures multiset(AllHalves(cfg, b))
         == multiset(AllHalves(cfg, b[..i] + b[i + 1..])) + multiset(Halves(cfg, b[i]))
  {
    hide Halves, AllHalves;
    var l, r, x := b[..i], b[i + 1..], [b[i]];
    assert b == l + (x + r);
    AllHalvesAppend(cfg, l, x + r);
    AllHalvesAppend(cfg, x, r);
    AllHalvesAppend(cfg, l, r);
    SingleHalves(cfg, b[i]);
  }

  lemma SingleHalves(cfg: Config, r: Record)
    ensures AllHalves(cfg, [r]) == Halves(cfg, r)
  {
    hide Halves;
    assert AllHalves(cfg, [r]) == AllHalves(cfg, []) + Halves(cfg, r);
  }

  lemma PickOne<T>(b: seq<T>, i: nat)
    requires i < |b|
    ensures multiset(b[..i] + b[i + 1..]) == multiset(b) - multiset{b[i]}
  {
    assert b == b[..i] + ([b[i]] + b[i + 1..]);
  }

  /** Splitting into halves commutes with reordering. */
  lemma {:induction false} HalvesOfPermutation(cfg: Config, a: seq<Record>, b: seq<Record>)
    requires multiset(a) == multiset(b)
    ensures multiset(AllHalves(cfg, a)) == multiset(AllHalves(cfg, b))
    decreases |a|
  {
    hide Halves, AllHalves;
    if a == [] {
      assert |multiset(b)| == 0;
      assert b == [];
    } else {
      var n := |a| - 1;
      assert a[n] in multiset(b);
      var i :| 0 <= i < |b| && b[i] == a[n];
      PickOne(a, n);
      PickOne(b, i);
      HalvesOfPermutation(cfg, a[..n] + a[n + 1..], b[..i] + b[i + 1..]);
      HalvesPick(cfg, b, i);
      HalvesPick(cfg, a, n);
    }
  }

  /** Flush-schedule independence: two quiet runs over the same packets that end with a
      closing flush and lose no write export the same records, however the flush calls are
      placed and rate limited, in biflow and in uniflow mode. */
  lemma FlushScheduleIndependence(cfg: Config, es1: seq<Event>, es2: seq<Event>, room1: nat, room2: nat)
    requires Quiet(cfg, es1) && Quiet(cfg, es2) && Offered(es1) == Offered(es2)
    requires Finale(cfg, es1, room1).failed == [] && Finale(cfg, es2, room2).failed == []
    ensures multiset(Records(Finale(cfg, es1, room1).written)) == multiset(Records(Finale(cfg, es2, room2).written))
  {
    hide *;
    var t1 := Finale(cfg, es1, room1);
    var t2 := Finale(cfg, es2, room2);
    FinaleWritten(cfg, es1, room1);
    FinaleWritten(cfg, es2, room2);
    forall k
      ensures RecordsOf(Conv(k), Records(t1.freed)) == RecordsOf(Conv(k), Records(t2.freed))
    {
      ExportIsGreedySplit(cfg, es1, room1, k);
      ExportIsGreedySplit(cfg, es2, room2, k);
      SameTalk(es1, es2, k);
    }
    SameConvsSameRecords(Records(t1.freed), Records(t2.freed));
    HalvesOfPermutation(cfg, Records(t1.freed), Records(t2.freed));
  }

  lemma SameTalk(es1: seq<Event>, es2: seq<Event>, k: FlowKey)
    requires Offered(es1) == Offered(es2)
    ensures Talk(es1, k) == Talk(es2, k)
  {
  }

  lemma FinaleWritten(cfg: Config, es: seq<Event>, room: nat)
    requires Finale(cfg, es, room).failed == []
    ensures Records(Finale(cfg, es, room).written) == AllHalves(cfg, Records(Finale(cfg, es, room).freed))
  {
    hide FlushStep, Run;
    RunWritten(cfg, es);
    FlushWritten(cfg, Run(cfg, es), true, room);
  }
}
