/** The flow table as a state machine: one step per packet, one per flush call.  The class
    in FlowTable.dfy is proved to implement these steps; the theorems in FlowRuns.dfy and
    FlowTheorems.dfy are about every run of them. */
module FlowMachine {
  import opened Widths
  import opened FlowKeys
  import opened Segments
  import opened Queues

  const FLUSH_DELAY := 5000
  const MAX_CQ := 2500

  datatype TcpState = TcpState(ffin: bool, rfin: bool, ffinack: bool, rfinack: bool, rst: bool)

  datatype EndReason = Running | Idle | Active | Closed | Forced | Resource

  /** A flow node.  `hist` lists the packets the node has absorbed; no step reads it, it
      only lets theorems say which packets a counter stands for. */
  datatype Flow = Flow(key: FlowKey, fid: nat, stime: nat, etime: nat, rdtime: int,
                       reason: EndReason, cont: bool, val: Counters, rval: Counters,
                       state: TcpState, hist: seq<Packet>)

  datatype Stats = Stats(octets: nat, packets: nat, seqrej: nat, flows: nat, uniflows: nat,
                         peak: int, flush: nat)

  /** `aq` runs from the tail (least recent) to the head of the active queue, `cq` from the
      tail (next to be exported) to the head of the close queue.  `freed` lists the flows
      taken off the close queue, `written` the records the output accepted, `failed` those
      it did not. */
  datatype Tab = Tab(ctime: nat, flushTime: nat, table: map<FlowKey, Flow>,
                     aq: seq<FlowKey>, cq: seq<Flow>, count: int, cqCount: int, nextFid: nat,
                     stats: Stats, freed: seq<Flow>, written: seq<Flow>, failed: seq<Flow>)

  const EmptyTab := Tab(0, 0, map[], [], [], 0, 0, 1, Stats(0, 0, 0, 0, 0, 0, 0), [], [], [])

  function ToRecord(f: Flow): Record {
    Record(f.key, f.stime, f.etime, f.rdtime, f.val, f.rval)
  }

  predicate Finished(t: TcpState) {
    t.rst || (t.ffin && t.rfin && t.ffinack && t.rfinack)
  }

  // ---- key index ----

  /** Where a packet's flow is: the index key, and whether the packet runs backwards. */
  datatype Found = NotFound | At(k: FlowKey, back: bool)

  function Find(table: map<FlowKey, Flow>, key: FlowKey): (r: Found)
    ensures r.At? ==> r.k in table && r.k in Conv(key) && (r.back <==> r.k != Canon(key))
    ensures r.NotFound? <==> table.Keys !! Conv(key)
  {
    if Canon(key) in table then At(Canon(key), false)
    else if Canon(Reverse(key)) in table then At(Canon(Reverse(key)), true)
    else NotFound
  }

  // ---- node operations ----

  const NoState := TcpState(false, false, false, false, false)

  function NewFlow(key: FlowKey, fid: nat, now: nat, cont: bool): Flow {
    Flow(key, fid, now, now, 0, Running, cont, NoTraffic, NoTraffic, NoState, [])
  }

  /** A new node for a key that is not indexed; a zero contFid draws a fresh flow id. */
  function Open(s: Tab, key: FlowKey, contFid: nat, cont: bool): Tab {
    var fid := if contFid != 0 then contFid else s.nextFid;
    s.(table := s.table[Canon(key) := NewFlow(key, fid, s.ctime, cont)],
       nextFid := if contFid != 0 then s.nextFid else s.nextFid + 1,
       count := s.count + 1,
       stats := s.stats.(peak := if s.count + 1 > s.stats.peak then s.count + 1 else s.stats.peak))
  }

  function Close(s: Tab, k: FlowKey, why: EndReason): Tab
    requires k in s.table
  {
    s.(table := s.table - {k},
       aq := Without(s.aq, k),
       cq := s.cq + [s.table[k].(reason := why)],
       cqCount := s.cqCount + 1,
       count := s.count - 1)
  }

  /** Move a node to the head of the active queue. */
  function Tick(s: Tab, k: FlowKey): Tab {
    if s.aq != [] && s.aq[|s.aq| - 1] == k then s
    else s.(aq := Without(s.aq, k) + [k])
  }

  function TcpStep(t: TcpState, flags: TcpFlags, back: bool): TcpState {
    var t1 := if !back then
                var t0 := if flags.fin then t.(ffin := true) else t;
                if t0.rfin && flags.ack then t0.(ffinack := true) else t0
              else
                var t0 := if flags.fin then t.(rfin := true) else t;
                if t0.ffin && flags.ack then t0.(rfinack := true) else t0;
    if flags.rst then t1.(rst := true) else t1
  }

  /** Account one packet to a node. */
  function Account(f: Flow, p: Packet, back: bool): Flow
    requires f.stime <= p.ptime
  {
    f.(rdtime := if back && f.rval.pkt == 0 then ToInt(p.ptime - f.stime) else f.rdtime,
       state := if f.key.proto == PROTO_TCP then TcpStep(f.state, p.flags, back) else f.state,
       val := if back then f.val else Count(f.val, p),
       rval := if back then Count(f.rval, p) else f.rval,
       etime := p.ptime,
       hist := f.hist + [p])
  }

  predicate Outlived(cfg: Config, f: Flow, p: Packet, back: bool) {
    || p.ptime - f.stime > cfg.activeMs
    || (cfg.silk && (if back then f.rval.oct else f.val.oct) + p.iplen > UINT32_MAX)
  }

  // ---- one packet ----

  /** Make sure the packet's flow is open: continue, restart or create it. */
  function Place(cfg: Config, s: Tab, p: Packet): Tab {
    match Find(s.table, p.key)
    case NotFound => Open(s, p.key, 0, false)
    case At(k, back) =>
      var f := s.table[k];
      if Outlived(cfg, f, p, back) then Open(Close(s, k, Active), p.key, f.fid, cfg.silk)
      else if p.ptime - f.etime > cfg.idleMs then Open(Close(s, k, Idle), p.key, f.fid, false)
      else s
  }

  /** Account the packet, then close the flow or move it to the head of the queue. */
  function Absorb(s: Tab, p: Packet): Tab
    requires Find(s.table, p.key).At?
    requires s.table[Find(s.table, p.key).k].stime <= p.ptime
  {
    var at := Find(s.table, p.key);
    var f := Account(s.table[at.k], p, at.back);
    var s1 := s.(table := s.table[at.k := f]);
    if Finished(f.state) then Close(s1, at.k, Closed) else Tick(s1, at.k)
  }

  /** Times in the table never exceed the table clock. */
  ghost predicate Timely(s: Tab) {
    forall k :: k in s.table ==> s.table[k].stime <= s.table[k].etime <= s.ctime
  }

  function Accept(s: Tab, p: Packet): Tab {
    s.(ctime := p.ptime,
       stats := s.stats.(packets := s.stats.packets + 1, octets := s.stats.octets + p.iplen))
  }

  lemma PlaceIsFound(cfg: Config, s: Tab, p: Packet)
    requires Timely(s)
    ensures Timely(Place(cfg, s, p)) && Place(cfg, s, p).ctime == s.ctime
    ensures
      var t := Place(cfg, s, p);
      Find(t.table, p.key).At?
  {
    assert Canon(p.key) in Conv(p.key);
  }

  function PacketStep(cfg: Config, s: Tab, p: Packet): Tab
    requires Timely(s)
  {
    if p.ptime < s.ctime then s.(stats := s.stats.(seqrej := s.stats.seqrej + 1))
    else
      var s1 := Accept(s, p);
      PlaceIsFound(cfg, s1, p);
      Absorb(Place(cfg, s1, p), p)
  }

  // ---- one flush call ----

  predicate IdleFlow(cfg: Config, s: Tab, k: FlowKey) {
    k in s.table && s.ctime - s.table[k].etime > cfg.idleMs
  }

  /** Full scan of a queue: every idle flow in it, in queue order. */
  function IdleKeys(cfg: Config, s: Tab, q: seq<FlowKey>): (r: seq<FlowKey>)
    ensures forall k :: k in r <==> k in q && IdleFlow(cfg, s, k)
  {
    if q == [] then []
    else if IdleFlow(cfg, s, q[0]) then [q[0]] + IdleKeys(cfg, s, q[1..])
    else IdleKeys(cfg, s, q[1..])
  }

  /** The least recent flows above the limit. */
  function ExcessKeys(cfg: Config, s: Tab): seq<FlowKey> {
    var n := s.count - cfg.maxFlows + 1;
    if cfg.maxFlows == 0 || n <= 0 then []
    else if n <= |s.aq| then s.aq[..n]
    else s.aq
  }

  function CloseAll(s: Tab, ks: seq<FlowKey>, why: EndReason): Tab
    decreases |ks|
  {
    if ks == [] then s
    else CloseAll(if ks[0] in s.table then Close(s, ks[0], why) else s, ks[1..], why)
  }

  function Uniflow(f: Flow): Flow {
    f.(rval := NoTraffic, rdtime := 0)
  }

  /** Backward half of a biflow; the start time is a 64-bit sum with the signed delay. */
  function UniflowReverse(f: Flow): Flow {
    f.(key := Reverse(f.key), stime := (f.stime + f.rdtime) % 0x1_0000_0000_0000_0000,
       rdtime := 0, val := f.rval, rval := NoTraffic)
  }

  /** The records written for one flow. */
  function Exports(cfg: Config, f: Flow): seq<Flow> {
    if !cfg.uniflow then [f]
    else if f.rval.pkt == 0 then [Uniflow(f)]
    else [Uniflow(f), UniflowReverse(f)]
  }

  function Min(a: int, b: int): int {
    if a < b then a else b
  }

  /** Take one flow off the close queue, write its records and free it. */
  function Emit(cfg: Config, s: Tab, room: nat): Tab
    requires s.cq != []
  {
    var f := s.cq[0];
    var recs := Exports(cfg, f);
    var n := Min(room, |recs|);
    s.(cq := s.cq[1..], cqCount := s.cqCount - 1,
       freed := s.freed + [f],
       written := s.written + recs[..n],
       failed := s.failed + recs[n..],
       stats := s.stats.(flows := s.stats.flows + n,
                         uniflows := s.stats.uniflows + (if f.rval.oct == 0 && f.rval.pkt == 0 then 1 else 0)))
  }

  datatype Flushed = Flushed(tab: Tab, ok: bool)

  /** Export until the close queue is empty or a write fails.  The output accepts `room`
      more records; since the first failure ends the call, one number covers every
      behaviour of the output. */
  function Drain(cfg: Config, s: Tab, room: nat): Flushed
    decreases |s.cq|
  {
    if s.cq == [] then Flushed(s, true)
    else
      var n := |Exports(cfg, s.cq[0])|;
      if room < n then Flushed(Emit(cfg, s, room), false)
      else Drain(cfg, Emit(cfg, s, room), room - n)
  }

  predicate RateLimited(s: Tab, close: bool) {
    !close && s.flushTime != 0 && s.ctime < s.flushTime + FLUSH_DELAY && s.cqCount < MAX_CQ
  }

  function BeginFlush(s: Tab): Tab {
    s.(flushTime := s.ctime, stats := s.stats.(flush := s.stats.flush + 1))
  }

  /** Close idle flows, then the excess, then (on a closing flush) the rest. */
  function Expire(cfg: Config, s: Tab, close: bool): Tab {
    var s1 := CloseAll(s, IdleKeys(cfg, s, s.aq), Idle);
    var s2 := CloseAll(s1, ExcessKeys(cfg, s1), Resource);
    if close then CloseAll(s2, s2.aq, Forced) else s2
  }

  function FlushStep(cfg: Config, s: Tab, close: bool, room: nat): Flushed {
    if RateLimited(s, close) then Flushed(s, true)
    else Drain(cfg, Expire(cfg, BeginFlush(s), close), room)
  }
}
