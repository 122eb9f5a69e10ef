/** What a flow record means: the summary of a run of packets of one conversation, and
    the rule that says where one run must end and the next begin.  Nothing here mentions
    the flow table; it is the reference that the table is proved against. */
module Segments {
  import opened Widths
  import opened FlowKeys

  const UINT32_MAX := 0xFFFF_FFFF

  type u16 = x: int | 0 <= x < 0x1_0000

  datatype TcpFlags = TcpFlags(fin: bool, rst: bool, ack: bool)

  /** A decoded packet.  Times are epoch milliseconds. */
  datatype Packet = Packet(key: FlowKey, ptime: nat, iplen: u16, datalen: u16, flags: TcpFlags)

  datatype Config = Config(idleMs: nat, activeMs: nat, maxFlows: nat, uniflow: bool, silk: bool)

  /** Directional counters. */
  datatype Counters = Counters(pkt: nat, oct: nat, appPkt: nat, appOct: nat)

  const NoTraffic := Counters(0, 0, 0, 0)

  function Count(v: Counters, p: Packet): Counters {
    Counters(v.pkt + 1, v.oct + p.iplen,
             v.appPkt + (if p.datalen != 0 then 1 else 0), v.appOct + p.datalen)
  }

  /** The exported record, without flow id and end reason. */
  datatype Record = Record(key: FlowKey, stime: nat, etime: nat, rdtime: int,
                           val: Counters, rval: Counters)

  /** Packets of a segment run backwards when they do not carry the first packet's key. */
  predicate Backward(seg: seq<Packet>, p: Packet)
    requires seg != []
  {
    Canon(p.key) != Canon(seg[0].key)
  }

  /** Traffic of one direction among the first n packets. */
  function Traffic(seg: seq<Packet>, n: nat, back: bool): Counters
    requires n <= |seg|
  {
    if n == 0 then NoTraffic
    else if Backward(seg, seg[n - 1]) == back then Count(Traffic(seg, n - 1, back), seg[n - 1])
    else Traffic(seg, n - 1, back)
  }

  /** Delay of the first backward packet, in a signed 32-bit field; 0 if there is none. */
  function ReverseDelay(seg: seq<Packet>, n: nat): int
    requires n <= |seg|
    requires forall i :: 0 <= i < n ==> seg[0].ptime <= seg[i].ptime
  {
    if n == 0 then 0
    else if Backward(seg, seg[n - 1]) && Traffic(seg, n - 1, true).pkt == 0 then
      ToInt(seg[n - 1].ptime - seg[0].ptime)
    else ReverseDelay(seg, n - 1)
  }

  ghost predicate Ordered(seg: seq<Packet>) {
    forall i, j :: 0 <= i <= j < |seg| ==> seg[i].ptime <= seg[j].ptime
  }

  ghost function Summarize(seg: seq<Packet>): Record
    requires seg != [] && Ordered(seg)
  {
    Record(seg[0].key, seg[0].ptime, seg[|seg| - 1].ptime, ReverseDelay(seg, |seg|),
           Traffic(seg, |seg|, false), Traffic(seg, |seg|, true))
  }

  // ---- end of a TCP connection, read off the packet history ----

  ghost predicate HasFin(seg: seq<Packet>, back: bool) {
    exists i :: 0 <= i < |seg| && seg[i].flags.fin && Backward(seg, seg[i]) == back
  }

  /** Side `back` acknowledged after the other side's FIN. */
  ghost predicate AckedFin(seg: seq<Packet>, back: bool) {
    exists i, j :: 0 <= i < j < |seg|
      && seg[i].flags.fin && Backward(seg, seg[i]) != back
      && seg[j].flags.ack && Backward(seg, seg[j]) == back
  }

  ghost predicate HasRst(seg: seq<Packet>) {
    exists i :: 0 <= i < |seg| && seg[i].flags.rst
  }

  ghost predicate HistoryClosed(seg: seq<Packet>)
    requires seg != []
  {
    seg[0].key.proto == PROTO_TCP &&
    (HasRst(seg) ||
     (HasFin(seg, false) && HasFin(seg, true) && AckedFin(seg, false) && AckedFin(seg, true)))
  }

  // ---- where a segment must end ----

  /** Packet p cannot join segment seg: the connection is over, the segment has lasted or
      rested too long, or (silk mode) its octet counter would pass 32 bits. */
  ghost predicate Breaks(cfg: Config, seg: seq<Packet>, p: Packet)
    requires seg != []
  {
    || HistoryClosed(seg)
    || p.ptime - seg[0].ptime > cfg.activeMs
    || (cfg.silk && Traffic(seg, |seg|, Backward(seg, p)).oct + p.iplen > UINT32_MAX)
    || p.ptime - seg[|seg| - 1].ptime > cfg.idleMs
  }

  /** A segment of one conversation, in time order, in which no packet breaks. */
  ghost predicate Unbroken(cfg: Config, seg: seq<Packet>) {
    && seg != []
    && Ordered(seg)
    && (forall i :: 0 <= i < |seg| ==> Conv(seg[i].key) == Conv(seg[0].key))
    && (forall i :: 1 <= i < |seg| ==> !Breaks(cfg, seg[..i], seg[i]))
  }

  /** The greedy split of a conversation: every packet joins the last segment unless it
      breaks it. */
  ghost function Split(cfg: Config, ps: seq<Packet>): (segs: seq<seq<Packet>>)
    ensures forall i :: 0 <= i < |segs| ==> segs[i] != []
    ensures segs == [] <==> ps == []
  {
    if ps == [] then []
    else
      var p := ps[|ps| - 1];
      var segs := Split(cfg, ps[..|ps| - 1]);
      if segs == [] || Breaks(cfg, segs[|segs| - 1], p) then segs + [[p]]
      else segs[..|segs| - 1] + [segs[|segs| - 1] + [p]]
  }

  function Flatten(segs: seq<seq<Packet>>): seq<Packet> {
    if segs == [] then []
    else Flatten(segs[..|segs| - 1]) + segs[|segs| - 1]
  }

  lemma {:induction false} FlattenAppend(a: seq<seq<Packet>>, b: seq<seq<Packet>>)
    ensures Flatten(a + b) == Flatten(a) + Flatten(b)
    decreases |b|
  {
    if b == [] {
      assert a + b == a;
    } else {
      var n := |b| - 1;
      FlattenAppend(a, b[..n]);
      assert (a + b)[..|a + b| - 1] == a + b[..n];
    }
  }

  // ---- a segment grows by one packet ----

  lemma {:induction false} TrafficPrefix(seg: seq<Packet>, p: Packet, n: nat, back: bool)
    requires seg != [] && n <= |seg|
    ensures Traffic(seg + [p], n, back) == Traffic(seg, n, back)
  {
    if n > 0 {
      TrafficPrefix(seg, p, n - 1, back);
    }
  }

  lemma {:induction false} ReverseDelayPrefix(seg: seq<Packet>, p: Packet, n: nat)
    requires seg != [] && n <= |seg|
    requires Ordered(seg) && Ordered(seg + [p])
    ensures ReverseDelay(seg + [p], n) == ReverseDelay(seg, n)
  {
    if n > 0 {
      ReverseDelayPrefix(seg, p, n - 1);
      TrafficPrefix(seg, p, n - 1, true);
    }
  }

  lemma OrderedGrow(seg: seq<Packet>, p: Packet)
    requires seg != [] && Ordered(seg) && seg[|seg| - 1].ptime <= p.ptime
    ensures Ordered(seg + [p])
  {
    var s := seg + [p];
    forall i, j | 0 <= i <= j < |s|
      ensures s[i].ptime <= s[j].ptime
    {
      assert i < |seg| ==> seg[i].ptime <= seg[|seg| - 1].ptime;
    }
  }

  /** How a summary changes when its segment grows. */
  lemma SummaryGrow(seg: seq<Packet>, p: Packet)
    requires seg != [] && Ordered(seg) && seg[|seg| - 1].ptime <= p.ptime
    ensures Ordered(seg + [p])
    ensures
      var r := Summarize(seg);
      var r' := Summarize(seg + [p]);
      && r'.key == r.key && r'.stime == r.stime && r'.etime == p.ptime
      && r'.rdtime == (if Backward(seg, p) && r.rval.pkt == 0 then ToInt(p.ptime - r.stime) else r.rdtime)
      && r'.val == (if Backward(seg, p) then r.val else Count(r.val, p))
      && r'.rval == (if Backward(seg, p) then Count(r.rval, p) else r.rval)
  {
    OrderedGrow(seg, p);
    TrafficPrefix(seg, p, |seg|, false);
    TrafficPrefix(seg, p, |seg|, true);
    ReverseDelayPrefix(seg, p, |seg|);
  }

  lemma FinGrow(seg: seq<Packet>, p: Packet, back: bool)
    requires seg != []
    ensures HasFin(seg + [p], back) <==> HasFin(seg, back) || (p.flags.fin && Backward(seg, p) == back)
  {
    var s := seg + [p];
    assert s[|seg|] == p;
    if HasFin(seg, back) {
      var i :| 0 <= i < |seg| && seg[i].flags.fin && Backward(seg, seg[i]) == back;
      assert s[i] == seg[i];
    }
  }

  lemma AckGrow(seg: seq<Packet>, p: Packet, back: bool)
    requires seg != []
    ensures AckedFin(seg + [p], back)
       <==> AckedFin(seg, back) || (HasFin(seg, !back) && p.flags.ack && Backward(seg, p) == back)
  {
    var s := seg + [p];
    assert s[|seg|] == p;
    if AckedFin(seg, back) {
      var i, j :| 0 <= i < j < |seg| && seg[i].flags.fin && Backward(seg, seg[i]) != back
        && seg[j].flags.ack && Backward(seg, seg[j]) == back;
      assert s[i] == seg[i] && s[j] == seg[j];
    }
    if HasFin(seg, !back) && p.flags.ack && Backward(seg, p) == back {
      var i :| 0 <= i < |seg| && seg[i].flags.fin && Backward(seg, seg[i]) == !back;
      assert s[i] == seg[i];
    }
  }

  lemma RstGrow(seg: seq<Packet>, p: Packet)
    ensures HasRst(seg + [p]) <==> HasRst(seg) || p.flags.rst
  {
    var s := seg + [p];
    assert s[|seg|] == p;
    if HasRst(seg) {
      var i :| 0 <= i < |seg| && seg[i].flags.rst;
      assert s[i] == seg[i];
    }
  }

  lemma UnbrokenGrow(cfg: Config, seg: seq<Packet>, p: Packet)
    requires Unbroken(cfg, seg) && !Breaks(cfg, seg, p)
    requires seg[|seg| - 1].ptime <= p.ptime && Conv(p.key) == Conv(seg[0].key)
    ensures Unbroken(cfg, seg + [p])
  {
    var s := seg + [p];
    OrderedGrow(seg, p);
    forall i | 1 <= i < |s|
      ensures !Breaks(cfg, s[..i], s[i])
    {
      assert s[..i] == if i == |seg| then seg else seg[..i];
    }
  }

  lemma UnbrokenSingle(cfg: Config, p: Packet)
    ensures Unbroken(cfg, [p])
  {
  }

  // ---- what every unbroken segment satisfies ----

  /** The record bounds: duration, spacing of packets, a forward packet, and the reverse
      delay, whose 32-bit field is exact if and only if the delay is below 2^31 ms. */
  lemma SegmentBounds(cfg: Config, seg: seq<Packet>)
    requires Unbroken(cfg, seg)
    ensures
      var r := Summarize(seg);
      && r.stime <= r.etime <= r.stime + cfg.activeMs
      && (forall i :: 1 <= i < |seg| ==> seg[i].ptime - seg[i - 1].ptime <= cfg.idleMs)
      && r.val.pkt >= 1
      && r.val.pkt + r.rval.pkt == |seg|
      && (cfg.silk ==> r.val.oct <= UINT32_MAX && r.rval.oct <= UINT32_MAX)
  {
    var n := |seg|;
    forall i | 1 <= i < n
      ensures seg[i].ptime - seg[i - 1].ptime <= cfg.idleMs
      ensures seg[i].ptime - seg[0].ptime <= cfg.activeMs
    {
      assert !Breaks(cfg, seg[..i], seg[i]);
    }
    FirstIsForward(seg, n);
    TrafficTotal(seg, n);
    if cfg.silk {
      OctetBound(cfg, seg, n, false);
      OctetBound(cfg, seg, n, true);
    }
  }

  lemma {:induction false} FirstIsForward(seg: seq<Packet>, n: nat)
    requires 1 <= n <= |seg|
    ensures Traffic(seg, n, false).pkt >= 1
  {
    if n > 1 {
      FirstIsForward(seg, n - 1);
    }
  }

  lemma {:induction false} TrafficTotal(seg: seq<Packet>, n: nat)
    requires n <= |seg|
    ensures Traffic(seg, n, false).pkt + Traffic(seg, n, true).pkt == n
  {
    if n > 0 {
      TrafficTotal(seg, n - 1);
    }
  }

  lemma {:induction false} TrafficOfPrefix(seg: seq<Packet>, m: nat, n: nat, back: bool)
    requires n <= m <= |seg|
    ensures Traffic(seg[..m], n, back) == Traffic(seg, n, back)
  {
    if n > 0 {
      TrafficOfPrefix(seg, m, n - 1, back);
    }
  }

  lemma {:induction false} OctetBound(cfg: Config, seg: seq<Packet>, n: nat, back: bool)
    requires Unbroken(cfg, seg) && cfg.silk && n <= |seg|
    ensures Traffic(seg, n, back).oct <= UINT32_MAX
  {
    hide HistoryClosed, Conv, Ordered, Canon;
    if n > 0 {
      OctetBound(cfg, seg, n - 1, back);
      if n > 1 {
        assert !Breaks(cfg, seg[..n - 1], seg[n - 1]);
        TrafficOfPrefix(seg, n - 1, n - 1, back);
      }
    }
  }

  /** The connection history closes a segment only at its last packet. */
  lemma ClosedOnlyAtEnd(cfg: Config, seg: seq<Packet>, n: nat)
    requires Unbroken(cfg, seg) && 1 <= n < |seg|
    ensures !HistoryClosed(seg[..n])
  {
    assert !Breaks(cfg, seg[..n], seg[n]);
  }

  /** The reverse delay is the first backward packet's delay, through a signed 32-bit field. */
  lemma {:induction false} ReverseDelayIsFirst(seg: seq<Packet>, n: nat, k: nat)
    requires Ordered(seg) && k < n <= |seg|
    requires Backward(seg, seg[k])
    requires forall i :: 0 <= i < k ==> !Backward(seg, seg[i])
    ensures ReverseDelay(seg, n) == ToInt(seg[k].ptime - seg[0].ptime)
    ensures Traffic(seg, n, true).pkt > 0
    ensures seg[0].ptime + ReverseDelay(seg, n) == seg[k].ptime <==> seg[k].ptime - seg[0].ptime < 0x8000_0000
  {
    if n == k + 1 {
      NoBackward(seg, k);
    } else {
      ReverseDelayIsFirst(seg, n - 1, k);
    }
  }

  lemma {:induction false} NoBackward(seg: seq<Packet>, n: nat)
    requires n <= |seg| && forall i :: 0 <= i < n ==> !Backward(seg, seg[i])
    ensures Traffic(seg, n, true) == NoTraffic
  {
    if n > 0 {
      NoBackward(seg, n - 1);
    }
  }

  lemma FewOctets(p: Packet, back: bool)
    ensures Traffic([p], 1, back).oct <= p.iplen
  {
    assert Traffic([p], 0, back) == NoTraffic;
  }

  /** A first backward packet 2^31 ms after the start joins the flow when both timeouts are at
      least that long, and then the delay field holds -2^31. */
  lemma LongReverseDelay(cfg: Config, a: Packet, b: Packet)
    requires cfg.idleMs >= 0x8000_0000 && cfg.activeMs >= 0x8000_0000
    requires Conv(b.key) == Conv(a.key) && Canon(b.key) != Canon(a.key)
    requires b.ptime - a.ptime == 0x8000_0000
    requires a.key.proto == PROTO_TCP ==> !a.flags.rst
    ensures Unbroken(cfg, [a, b])
    ensures Ordered([a, b]) && ReverseDelay([a, b], 2) == -0x8000_0000
    ensures a.ptime + ReverseDelay([a, b], 2) < a.ptime < b.ptime
  {
    var seg := [a, b];
    assert seg[0] == a && seg[1] == b;
    assert Backward(seg, seg[1]) && !Backward(seg, seg[0]);
    assert seg == [a] + [b];
    UnbrokenSingle(cfg, a);
    assert !HistoryClosed([a]);
    FewOctets(a, Backward([a], b));
    UnbrokenGrow(cfg, [a], b);
    ReverseDelayIsFirst(seg, 2, 1);
  }
}
