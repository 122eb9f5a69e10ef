/** The flow table itself (src/yaftab.c): an object whose methods update the key index, the
    two queues and the counters in place.  Each method is proved to perform a step of the
    state machine, so every theorem about runs is a theorem about this object. */
module FlowTable {
  import opened Widths
  import opened FlowKeys
  import opened Segments
  import opened Queues
  import opened FlowMachine
  import opened FlowInvariant
  import opened FlowExpiry

  class Table {
    const cfg: Config
    var ctime: nat
    var flushTime: nat
    var table: map<FlowKey, Flow>
    var aq: seq<FlowKey>
    var cq: seq<Flow>
    var count: int
    var cqCount: int
    var nextFid: nat
    var stats: Stats
    var written: seq<Flow>
    ghost var freed: seq<Flow>
    ghost var failed: seq<Flow>

    ghost function State(): Tab
      reads this
    {
      Tab(ctime, flushTime, table, aq, cq, count, cqCount, nextFid, stats, freed, written, failed)
    }

    ghost predicate Valid()
      reads this
    {
      Coherent(cfg, State())
    }

    constructor (cfg: Config)
      ensures this.cfg == cfg && Valid() && State() == EmptyTab
    {
      this.cfg := cfg;
      ctime, flushTime, nextFid := 0, 0, 1;
      table, aq, cq := map[], [], [];
      count, cqCount := 0, 0;
      stats := Stats(0, 0, 0, 0, 0, 0, 0);
      written, freed, failed := [], [], [];
    }

    /** Find the node of a key or of its reverse, or create one. */
    method GetNode(key: FlowKey, contFid: nat) returns (k: FlowKey, back: bool)
      modifies this
      ensures State() == if old(Find(table, key)).At? then old(State())
                         else Open(old(State()), key, contFid, false)
      ensures Find(table, key) == At(k, back)
    {
      if Canon(key) in table {
        return Canon(key), false;
      }
      if Canon(Reverse(key)) in table {
        return Canon(Reverse(key)), true;
      }
      var fid := contFid;
      if contFid == 0 {
        fid := nextFid;
        nextFid := nextFid + 1;
      }
      table := table[Canon(key) := NewFlow(key, fid, ctime, false)];
      count := count + 1;
      if count > stats.peak {
        stats := stats.(peak := count);
      }
      return Canon(key), false;
    }

    method CloseFlow(k: FlowKey, why: EndReason)
      requires k in table
      modifies this
      ensures State() == Close(old(State()), k, why)
    {
      var f := table[k].(reason := why);
      table := table - {k};
      aq := Without(aq, k);
      cq := cq + [f];
      cqCount := cqCount + 1;
      count := count - 1;
    }

    method TickFlow(k: FlowKey)
      modifies this
      ensures State() == Tick(old(State()), k)
    {
      if aq == [] || aq[|aq| - 1] != k {
        aq := Without(aq, k);
        aq := aq + [k];
      }
    }

    /** Close a node and open its successor for the same packet, continuing its flow id. */
    method RestartFlow(k: FlowKey, key: FlowKey, why: EndReason, cont: bool) returns (k': FlowKey, back: bool)
      requires Valid() && Find(table, key).At? && k == Find(table, key).k && why != Closed
      modifies this
      ensures State() == Open(Close(old(State()), k, why), key, old(table[k].fid), cont)
      ensures Find(table, key) == At(k', back) == At(Canon(key), false)
    {
      hide Coherent, Find, Conv;
      var fid := table[k].fid;
      CloseUnindexes(cfg, State(), key, why);
      CloseFlow(k, why);
      k', back := GetNode(key, fid);
      if cont {
        table := table[k' := table[k'].(cont := true)];
      }
    }

    /** Restart the packet's flow if it has outlived its limits or rested too long. */
    method PlacePacket(p: Packet) returns (k: FlowKey, back: bool)
      requires Valid() && ctime == p.ptime
      modifies this
      ensures State() == Place(cfg, old(State()), p)
      ensures Find(table, p.key) == At(k, back)
    {
      hide Coherent, Without, Conv, Canon, Reverse;
      k, back := GetNode(p.key, 0);
      var f := table[k];
      if p.ptime - f.stime > cfg.activeMs
         || (cfg.silk && (if back then f.rval.oct else f.val.oct) + p.iplen > UINT32_MAX) {
        k, back := RestartFlow(k, p.key, Active, cfg.silk);
      }
      if p.ptime - table[k].etime > cfg.idleMs {
        k, back := RestartFlow(k, p.key, Idle, false);
      }
    }

    /** One packet (yfFlowPBuf). */
    method PBuf(p: Packet)
      requires Valid()
      modifies this
      ensures Valid() && State() == PacketStep(cfg, old(State()), p)
    {
      hide Coherent, Place, Absorb, Find;
      ghost var s0 := State();
      PacketCoherent(cfg, s0, p);
      CoherentTimely(cfg, s0);
      if p.ptime < ctime {
        stats := stats.(seqrej := stats.seqrej + 1);
        return;
      }
      ctime := p.ptime;
      stats := stats.(packets := stats.packets + 1);
      stats := stats.(octets := stats.octets + p.iplen);
      assert State() == Accept(s0, p);
      AcceptCoherent(cfg, s0, p);
      PlaceIsFound(cfg, State(), p);
      var k, back := PlacePacket(p);
      AbsorbPacket(p, k, back);
    }

    /** Account the packet to its node, then close the flow or move it to the queue head. */
    method AbsorbPacket(p: Packet, k: FlowKey, back: bool)
      requires Find(table, p.key) == At(k, back) && table[k].stime <= p.ptime
      modifies this
      ensures State() == Absorb(old(State()), p)
    {
      var f := table[k];
      if back && f.rval.pkt == 0 {
        f := f.(rdtime := ToInt(p.ptime - f.stime));
      }
      if f.key.proto == PROTO_TCP {
        f := f.(state := TcpStep(f.state, p.flags, back));
      }
      if back {
        f := f.(rval := Count(f.rval, p));
      } else {
        f := f.(val := Count(f.val, p));
      }
      f := f.(etime := p.ptime, hist := f.hist + [p]);
      table := table[k := f];
      if Finished(f.state) {
        CloseFlow(k, Closed);
      } else {
        TickFlow(k);
      }
    }

    /** Close idle flows, looking only at the tail of the active queue. */
    method CloseIdle()
      requires Valid()
      modifies this
      ensures Valid() && State() == CloseAll(old(State()), IdleKeys(cfg, old(State()), old(aq)), Idle)
    {
      hide Coherent, Close, CloseAll, IdleKeys;
      ghost var s0 := State();
      ghost var n := 0;
      CloseNone(s0, Idle);
      TailFacts(cfg, s0, 0, Idle);
      while aq != [] && ctime - table[aq[0]].etime > cfg.idleMs
        invariant Valid()
        invariant n <= |s0.aq| && aq == s0.aq[n..]
        invariant State() == CloseAll(s0, s0.aq[..n], Idle)
        invariant forall i :: 0 <= i < n ==> IdleFlow(cfg, s0, s0.aq[i])
        invariant aq != [] ==> aq[0] in table && ctime == s0.ctime && s0.aq[n] in s0.table && table[aq[0]] == s0.table[s0.aq[n]]
        decreases |aq|
      {
        TailStep(cfg, s0, n, Idle);
        TailFacts(cfg, s0, n + 1, Idle);
        CloseFlow(aq[0], Idle);
        n := n + 1;
      }
      TailStop(cfg, s0, n);
    }

    /** Close the least recent flows while the table is at its limit. */
    method CloseExcess()
      requires Valid()
      modifies this
      ensures Valid() && State() == CloseAll(old(State()), ExcessKeys(cfg, old(State())), Resource)
    {
      hide Coherent, Close, CloseAll;
      ghost var s0 := State();
      ghost var n := 0;
      CloseNone(s0, Resource);
      TailFacts(cfg, s0, 0, Resource);
      while cfg.maxFlows != 0 && aq != [] && count >= cfg.maxFlows
        invariant Valid()
        invariant n <= |s0.aq| && aq == s0.aq[n..] && count == s0.count - n
        invariant State() == CloseAll(s0, s0.aq[..n], Resource)
        invariant aq != [] ==> aq[0] in table
        invariant n == 0 || (cfg.maxFlows != 0 && s0.count - n >= cfg.maxFlows - 1)
        decreases |aq|
      {
        TailStep(cfg, s0, n, Resource);
        TailFacts(cfg, s0, n + 1, Resource);
        CloseFlow(aq[0], Resource);
        n := n + 1;
      }
      assert s0.aq[..n] == ExcessKeys(cfg, s0);
    }

    /** Close every flow. */
    method CloseRest()
      requires Valid()
      modifies this
      ensures Valid() && State() == CloseAll(old(State()), old(aq), Forced)
    {
      hide Coherent, Close, CloseAll;
      ghost var s0 := State();
      ghost var n := 0;
      CloseNone(s0, Forced);
      TailFacts(cfg, s0, 0, Forced);
      while aq != []
        invariant Valid()
        invariant n <= |s0.aq| && aq == s0.aq[n..]
        invariant State() == CloseAll(s0, s0.aq[..n], Forced)
        invariant aq != [] ==> aq[0] in table
        decreases |aq|
      {
        TailStep(cfg, s0, n, Forced);
        TailFacts(cfg, s0, n + 1, Forced);
        CloseFlow(aq[0], Forced);
        n := n + 1;
      }
      assert s0.aq[..n] == s0.aq;
    }

    /** Offer a record to the output, which takes it while it has room. */
    method WriteFlow(r: Flow, room: nat) returns (ok: bool)
      modifies this`written, this`stats
      ensures ok <==> room > 0
      ensures written == old(written) + (if ok then [r] else [])
      ensures stats == old(stats).(flows := old(stats).flows + (if ok then 1 else 0))
    {
      ok := room > 0;
      if ok {
        written := written + [r];
        stats := stats.(flows := stats.flows + 1);
      }
    }

    /** Write a flow whole, or split in two in uniflow mode, stopping at a failed write. */
    method WriteRecords(f: Flow, room: nat) returns (ok: bool)
      modifies this`written, this`stats
      ensures ok <==> room >= |Exports(cfg, f)|
      ensures written == old(written) + Exports(cfg, f)[..Min(room, |Exports(cfg, f)|)]
      ensures stats == old(stats).(flows := old(stats).flows + Min(room, |Exports(cfg, f)|))
    {
      if cfg.uniflow {
        ok := WriteFlow(Uniflow(f), room);
        if ok && f.rval.pkt != 0 {
          ok := WriteFlow(UniflowReverse(f), room - 1);
        }
      } else {
        ok := WriteFlow(f, room);
      }
    }

    /** Take one flow off the close queue, write it and free it. */
    method ExportFlow(room: nat) returns (ok: bool)
      requires cq != []
      modifies this
      ensures State() == Emit(cfg, old(State()), room)
      ensures ok <==> room >= |Exports(cfg, old(cq[0]))|
    {
      hide Exports;
      var f := cq[0];
      cq := cq[1..];
      if f.rval.oct == 0 && f.rval.pkt == 0 {
        stats := stats.(uniflows := stats.uniflows + 1);
      }
      ok := WriteRecords(f, room);
      cqCount := cqCount - 1;
      freed := freed + [f];
      failed := failed + Exports(cfg, f)[Min(room, |Exports(cfg, f)|)..];
    }

    /** Export the close queue until it is empty or a write fails. */
    method ExportClosed(room: nat) returns (ok: bool)
      requires Valid()
      modifies this
      ensures Valid()
      ensures Flushed(State(), ok) == Drain(cfg, old(State()), room)
    {
      hide Coherent, Emit, Exports;
      ghost var s0 := State();
      var left: nat := room;
      while cq != []
        invariant Valid()
        invariant Drain(cfg, s0, room) == Drain(cfg, State(), left)
        decreases |cq|
      {
        EmitCoherent(cfg, State(), left);
        DrainSmaller(cfg, State(), left);
        var n := |Exports(cfg, cq[0])|;
        ok := ExportFlow(left);
        if !ok {
          return false;
        }
        left := left - n;
      }
      ok := true;
    }

    /** A flush call (yfFlowTabFlush); the output accepts `room` records during it. */
    method FlushTable(close: bool, room: nat) returns (ok: bool)
      requires Valid()
      modifies this
      ensures Valid()
      ensures Flushed(State(), ok) == FlushStep(cfg, old(State()), close, room)
    {
      hide Coherent, CloseAll, Drain, IdleKeys, ExcessKeys;
      ghost var s0 := State();
      if !close && flushTime != 0 && ctime < flushTime + FLUSH_DELAY && cqCount < MAX_CQ {
        return true;
      }
      flushTime := ctime;
      stats := stats.(flush := stats.flush + 1);
      BeginCoherent(cfg, s0);
      assert State() == BeginFlush(s0);
      CloseIdle();
      CloseExcess();
      if close {
        CloseRest();
      }
      ok := ExportClosed(room);
    }
  }

  lemma CoherentTimely(cfg: Config, s: Tab)
    requires Coherent(cfg, s)
    ensures Timely(s)
  {
  }
}
