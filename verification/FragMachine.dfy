/** The fragment table as a state machine: one step per packet (src/yafrag.c). */
module FragMachine {
  import opened FlowKeys
  import opened FragSpec
  import opened Queues

  const FRAG_TIMEOUT := 30000
  const PRUNE_DELAY := 5000

  type u16 = x: int | 0 <= x < 0x1_0000

  /** Addresses carry the version; ports and VLAN tag do not take part in equality. */
  datatype FragKey = FragKey(ipid: nat, proto: nat, addr: Address)

  /** A decoded packet as the defragmenter sees it. */
  datatype Fragment = Fragment(key: FragKey, ptime: nat, frag: bool, off: u16, more: bool,
                               iphlen: u16, iplen: u16, l4hlen: u16)

  /** `records` is in arrival order until a completion test sorts it. */
  datatype FragNode = FragNode(lastCtime: nat, haveFirst: bool, haveLast: bool, haveL4: bool,
                               records: seq<FragRec>)

  datatype FragStats = FragStats(frags: nat, seqrej: nat, packets: nat, dropped: nat, peak: int)

  /** `fraq` runs from tail (least recent) to head. */
  datatype FragTab = FragTab(ctime: nat, pruneTime: nat, maxFrags: nat, table: map<FragKey, FragNode>,
                             fraq: seq<FragKey>, count: int, stats: FragStats)

  /** What becomes of the packet: unfragmented, out of order, held back, or replaced by the
      assembled datagram of the given IP length. */
  datatype Outcome = Passed | Rejected | Held | Assembled(iplen: u16)

  datatype Stepped = Stepped(tab: FragTab, out: Outcome)

  type Sorter = seq<FragRec> -> seq<FragRec>

  /** What is known of the library sort. */
  ghost predicate Sorts(sort: Sorter) {
    forall rs :: IsSort(rs, sort(rs))
  }

  function Members<T(==)>(q: seq<T>): set<T> {
    set x | x in q
  }

  function RecordOf(f: Fragment): FragRec {
    FragRec(f.off, (f.iplen - f.iphlen) % 0x1_0000)
  }

  /** The node of a fragment, created if need be and moved to the queue head. */
  function Touch(s: FragTab, k: FragKey): FragTab {
    if k in s.table then
      s.(table := s.table[k := s.table[k].(lastCtime := s.ctime)], fraq := Without(s.fraq, k) + [k])
    else
      s.(table := s.table[k := FragNode(s.ctime, false, false, false, [])], fraq := s.fraq + [k],
         count := s.count + 1,
         stats := s.stats.(peak := if s.count + 1 > s.stats.peak then s.count + 1 else s.stats.peak))
  }

  function AddRecord(n: FragNode, f: Fragment): FragNode {
    n.(records := n.records + [RecordOf(f)],
       haveL4 := n.haveL4 || (f.off == 0 && f.l4hlen != 0),
       haveFirst := n.haveFirst || f.off == 0,
       haveLast := n.haveLast || !f.more)
  }

  function Add(s: FragTab, f: Fragment): FragTab
    requires f.key in s.table
  {
    s.(table := s.table[f.key := AddRecord(s.table[f.key], f)],
       stats := s.stats.(frags := s.stats.frags + 1))
  }

  function Remove(s: FragTab, k: FragKey, drop: bool): FragTab {
    s.(table := s.table - {k}, fraq := Without(s.fraq, k), count := s.count - 1,
       stats := if drop then s.stats.(dropped := s.stats.dropped + 1)
                else s.stats.(packets := s.stats.packets + 1))
  }

  /** The completion test.  A TCP datagram without a decoded transport header is dropped:
      the late decode needs payload that the node never holds. */
  function TryComplete(s: FragTab, f: Fragment, sort: Sorter): Stepped
    requires f.key in s.table
  {
    var n := s.table[f.key];
    if !n.haveFirst || !n.haveLast then Stepped(s, Held)
    else
      var sorted := sort(n.records);
      var s1 := s.(table := s.table[f.key := n.(records := sorted)]);
      match Walk(sorted, 0)
      case None => Stepped(s1, Held)
      case Some(next) =>
        if !n.haveL4 && f.key.proto == PROTO_TCP then Stepped(Remove(s1, f.key, true), Held)
        else Stepped(Remove(s1, f.key, false), Assembled((next + f.iphlen) % 0x1_0000))
  }

  predicate Stale(s: FragTab, k: FragKey) {
    k in s.table && s.ctime - s.table[k].lastCtime > FRAG_TIMEOUT
  }

  /** Full scan of a queue for nodes that have not expired. */
  function FreshKeys(s: FragTab, q: seq<FragKey>): (r: seq<FragKey>)
    ensures forall k :: k in r <==> k in q && !Stale(s, k)
    ensures |r| <= |q|
  {
    if q == [] then []
    else if Stale(s, q[0]) then FreshKeys(s, q[1..])
    else [q[0]] + FreshKeys(s, q[1..])
  }

  /** The n least recent nodes are dropped. */
  function DropTail(s: FragTab, n: nat): FragTab
    requires n <= |s.fraq|
  {
    s.(table := s.table - Members(s.fraq[..n]), fraq := s.fraq[n..], count := s.count - n,
       stats := s.stats.(dropped := s.stats.dropped + n))
  }

  function Excess(s: FragTab): nat {
    var n := s.count - s.maxFrags + 1;
    if s.maxFrags == 0 || n <= 0 then 0
    else if n <= |s.fraq| then n
    else |s.fraq|
  }

  /** Every expired node is dropped. */
  function DropStale(s: FragTab): FragTab {
    var keep := FreshKeys(s, s.fraq);
    s.(table := s.table - (Members(s.fraq) - Members(keep)), fraq := keep,
       count := s.count - (|s.fraq| - |keep|),
       stats := s.stats.(dropped := s.stats.dropped + (|s.fraq| - |keep|)))
  }

  predicate PruneLimited(s: FragTab) {
    s.pruneTime != 0 && s.ctime < s.pruneTime + PRUNE_DELAY
  }

  /** Drop the excess, then the expired; at most once per delay. */
  function Prune(s: FragTab): FragTab {
    if PruneLimited(s) then s
    else
      var s1 := s.(pruneTime := s.ctime);
      DropStale(DropTail(s1, Excess(s1)))
  }

  function Defrag(s: FragTab, f: Fragment, sort: Sorter): Stepped {
    if !f.frag then Stepped(s, Passed)
    else if f.ptime < s.ctime then
      Stepped(s.(stats := s.stats.(seqrej := s.stats.seqrej + 1)), Rejected)
    else
      var s1 := Add(Touch(s.(ctime := f.ptime), f.key), f);
      var r := TryComplete(s1, f, sort);
      Stepped(Prune(r.tab), r.out)
  }

  function EmptyTab(maxFrags: nat): FragTab {
    FragTab(0, 0, maxFrags, map[], [], 0, FragStats(0, 0, 0, 0, 0))
  }
}
