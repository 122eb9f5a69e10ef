/** The sequence tracker object of src/qofseq.c: its cells are shifted, split and edited in
    place.  Every call is proved to perform the corresponding step on unbounded sequence
    numbers, as long as the live edges and the segment lie within one 2^31 window. */
module SeqTracker {
  import opened SeqSpec
  import opened SeqCells
  import SeqLoss
  import SeqExact

  /** The segment, nsn and all live edges are close enough for serial comparison. */
  ghost predicate SegmentInWindow(t: Track, s: int, oct: nat) {
    && oct < TWO31 && Near(s, t.nsn)
    && InWindow(t.gaps, s, s + oct) && InWindow(t.gaps, t.nsn, t.nsn)
  }

  lemma {:induction false} FillNarrow(gs: seq<Gap>, n: int, a: int, b: int)
    requires Stack(gs, n) && Narrow(gs) && a < b
    ensures Narrow(Fill(gs, a, b).gaps)
  {
    var i := Seek(gs, a);
    if i < |gs| && a <= gs[i].b {
      hide Rest;
      var g := gs[i];
      var e := if b > g.b then g.b else b;
      var rest := Rest(g, a, e);
      RestStack(g, n, a, e);
      NarrowReplaced(gs, n, i, rest);
    }
  }

  lemma NarrowReplaced(gs: seq<Gap>, n: int, i: nat, mid: seq<Gap>)
    requires Stack(gs, n) && Narrow(gs) && i < |gs|
    requires forall j :: 0 <= j < |mid| ==> gs[i].a <= mid[j].a < mid[j].b <= gs[i].b
    ensures Narrow(gs[..i] + mid + gs[i + 1..])
  {
    var r := gs[..i] + mid + gs[i + 1..];
    forall j | 0 <= j < |r|
      ensures 0 < r[j].b - r[j].a < TWO31
    {
      ReplacedCell(gs, n, i, mid, j);
    }
  }

  lemma SegmentNarrow(t: Track, s: int, oct: nat)
    requires Stack(t.gaps, t.nsn) && Narrow(t.gaps) && SegmentInWindow(t, s, oct)
    ensures Narrow(Segment(t, s, oct).gaps)
  {
    hide Fill;
    if oct > 0 && s < t.nsn {
      FillNarrow(t.gaps, t.nsn, s, s + oct);
    }
  }

  /** Pushing cells: extend the top gap or insert a cell above it. */
  function PushCells(cs: seq<Cell>, a: u32, b: u32): seq<Cell>
    requires |cs| == GAPS
  {
    if !EmptyCell(cs[0]) && a == cs[0].a then cs[0 := Cell(cs[0].a, b)]
    else UnshiftCells(cs, 0)[0 := Cell(a, b)]
  }

  function PushLost(cs: seq<Cell>, a: u32): u32
    requires |cs| == GAPS
  {
    if !EmptyCell(cs[0]) && a == cs[0].a then 0 else CellSize(cs[GAPS - 1])
  }

  /** A new gap never extends the top one: nsn is above every gap. */
  lemma PushRefines(gs: seq<Gap>, n: int, s: int)
    requires Stack(gs, n) && Narrow(gs) && InWindow(gs, n, n) && 0 < s - n < TWO31
    ensures PushCells(Cells(gs), Wrap(n), Wrap(s)) == Cells(Truncate([Gap(n, s)] + gs))
    ensures PushLost(Cells(gs), Wrap(n)) == Evicted(gs)
  {
    hide Wrap, Cells, EmptyCell, CellSize, UnshiftCells, Truncate;
    TopDiffers(gs, n);
    LastCellSize(gs);
    InsertRefines(gs, Gap(n, s));
  }

  lemma TopDiffers(gs: seq<Gap>, n: int)
    requires Stack(gs, n) && InWindow(gs, n, n)
    ensures EmptyCell(Cells(gs)[0]) || Wrap(n) != Cells(gs)[0].a
  {
    if gs != [] {
      WrapIsOrder(n, gs[0].a);
    }
  }

  lemma InsertRefines(gs: seq<Gap>, g: Gap)
    requires |gs| <= GAPS
    ensures UnshiftCells(Cells(gs), 0)[0 := Lower(g)] == Cells(Truncate([g] + gs))
  {
    hide Lower;
    var cs := Cells(gs);
    var r := Truncate([g] + gs);
    var xs := UnshiftCells(cs, 0)[0 := Lower(g)];
    forall j | 0 <= j < GAPS
      ensures xs[j] == if j < |r| then Lower(r[j]) else NoGap
    {
      if j > 0 {
        assert xs[j] == cs[j - 1];
        assert j < |r| ==> r[j] == gs[j - 1];
      }
    }
    CellsEqual(xs, r);
  }

  lemma WrapSmall()
    ensures forall x: u32 :: Wrap(x) == x
  {
  }

  lemma SelfCompare()
    ensures WrapCompare(0, 0) == 0
  {
  }

  /** A 32-bit sum wrapped exactly when it came out smaller. */
  lemma WrapDetected(n: int, n': int)
    requires 0 < n' - n < TWO32
    ensures n' / TWO32 == n / TWO32 + (if Wrap(n') < Wrap(n) then 1 else 0)
  {
    assert n == (n / TWO32) * TWO32 + Wrap(n);
    assert n' == (n' / TWO32) * TWO32 + Wrap(n');
  }

  /** The wrap counter follows the epoch of nsn. */
  lemma EpochAdvances(n: int, n': int, epoch: int)
    requires 0 < n' - n < TWO32
    ensures Wrap(n' / TWO32 - epoch)
         == if Wrap(n') < Wrap(n) then Wrap(Wrap(n / TWO32 - epoch) + 1) else Wrap(n / TWO32 - epoch)
  {
    hide Wrap;
    WrapDetected(n, n');
    WrapAdd(n / TWO32 - epoch, 1);
  }

  lemma WrapAdd(x: int, y: int)
    ensures Wrap(Wrap(x) + y) == Wrap(x + y)
  {
    assert x == (x / TWO32) * TWO32 + Wrap(x);
    WrapShift(Wrap(x) + y, x / TWO32);
  }

  /** Segments reckoned out of order: those that fit the octets skipped, and one. */
  function OutOfOrder(t: Track, s: int, oct: nat, mss: nat): nat {
    if oct > 0 && s > t.nsn then Reckoned(s - t.nsn, mss) else 0
  }

  function Reckoned(skipped: nat, mss: nat): nat {
    skipped / (mss + 1) + 1
  }

  class Tracker {
    const gaps: array<Cell>
    var isn: u32
    var nsn: u32
    var wrapct: u32
    var rtx: u32
    var ooo: u32
    var seqlost: u32
    /** The unbounded state, the 2^32 epoch in which nsn began, and the run that led here. */
    ghost var track: Track
    ghost var epoch: int
    ghost var first: SeqLoss.Seg
    ghost var syn: bool
    ghost var events: seq<SeqLoss.Event>

    /** The 32-bit fields hold the unbounded state. */
    ghost predicate Refined()
      reads this`nsn, this`wrapct, this`seqlost, this`rtx, this`track, this`epoch, gaps
    {
      && gaps.Length == GAPS
      && Stack(track.gaps, track.nsn) && Narrow(track.gaps)
      && gaps[..] == Cells(track.gaps)
      && nsn == Wrap(track.nsn)
      && wrapct == Wrap(track.nsn / TWO32 - epoch)
      && seqlost == Wrap(track.seqlost)
      && rtx == Wrap(track.rtx)
    }

    ghost predicate Valid()
      reads this, gaps
    {
      Refined() && track == SeqLoss.Run(first, syn, events)
    }

    /** First segment of a direction (qfSeqFirstSegment). */
    constructor (sn: u32, oct: u32, syn: bool)
      ensures Valid() && fresh(gaps) && track == First(sn, oct, syn)
      ensures first == SeqLoss.Seg(sn, oct) && this.syn == syn && events == []
      ensures isn == sn && nsn == (sn + oct + if syn then 1 else 0) % 0x1_0000_0000
    {
      gaps := new Cell[GAPS](_ => NoGap);
      isn := sn;
      nsn := Wrap(sn + oct + (if syn then 1 else 0));
      wrapct, rtx, ooo, seqlost := 0, 0, 0, 0;
      track := First(sn, oct, syn);
      first, this.syn, events := SeqLoss.Seg(sn, oct), syn, [];
      epoch := (sn + oct + (if syn then 1 else 0)) / TWO32;
      new;
      CellsEqual(gaps[..], []);
    }

    method GapShift(i: nat)
      requires gaps.Length == GAPS && i < GAPS
      modifies gaps
      ensures gaps[..] == ShiftCells(old(gaps[..]), i)
    {
      forall k | i <= k < GAPS - 1 {
        gaps[k] := gaps[k + 1];
      }
      gaps[GAPS - 1] := NoGap;
    }

    method GapUnshift(i: nat) returns (lost: u32)
      requires gaps.Length == GAPS && i < GAPS
      modifies gaps
      ensures gaps[..] == UnshiftCells(old(gaps[..]), i)
      ensures lost == CellSize(old(gaps[GAPS - 1]))
    {
      lost := Sub32(gaps[GAPS - 1].b, gaps[GAPS - 1].a);
      forall k | i < k < GAPS {
        gaps[k] := gaps[k - 1];
      }
    }

    method GapPush(a: u32, b: u32, mss: nat)
      requires gaps.Length == GAPS
      modifies gaps, this`ooo, this`seqlost
      ensures gaps[..] == PushCells(old(gaps[..]), a, b)
      ensures seqlost == Wrap(old(seqlost) + PushLost(old(gaps[..]), a))
      ensures ooo == Wrap(old(ooo) + Reckoned(Sub32(b, a), mss))
    {
      ooo := Wrap(ooo + Sub32(b, a) / (mss + 1) + 1);
      if !EmptyCell(gaps[0]) && a == gaps[0].a {
        gaps[0] := Cell(gaps[0].a, b);
      } else {
        var lost := GapUnshift(0);
        seqlost := Wrap(seqlost + lost);
        gaps[0] := Cell(a, b);
      }
    }

    /** Seek to the first cell that is empty or does not start above a. */
    method SeekGap(a: u32) returns (i: nat)
      requires gaps.Length == GAPS
      ensures i == SeekCells(gaps[..], a)
    {
      i := 0;
      while i < GAPS && !EmptyCell(gaps[i]) && WrapCompare(a, gaps[i].a) < 0
        invariant i <= GAPS
        invariant SeekCells(gaps[..], a) == i + SeekCells(gaps[i..], a)
      {
        assert gaps[i..][1..] == gaps[i + 1..];
        i := i + 1;
      }
    }

    /** Distribute a segment over the gaps (qfSeqGapFill).  The seek never stops below a, so
        a segment touches one gap and the loop body runs at most once. */
    method GapFill(a0: u32, b0: u32) returns (retransmit: bool)
      requires gaps.Length == GAPS
      modifies gaps, this`seqlost, this`rtx
      ensures gaps[..] == FillCells(old(gaps[..]), a0, b0).cells
      ensures seqlost == Wrap(old(seqlost) + FillCells(old(gaps[..]), a0, b0).lost)
      ensures retransmit <==> FillCells(old(gaps[..]), a0, b0).rtxoct > 0
      ensures rtx == Wrap(old(rtx) + (if retransmit then 1 else 0))
    {
      hide EditCells, EditLost, WrapCompare, Sub32, Wrap;
      WrapSmall();
      var a, b, rtxoct: u32 := a0, b0, 0;
      ghost var f := FillCells(gaps[..], a0, b0);
      ghost var split := false;
      while WrapCompare(b, a) > 0
        invariant !split ==> a == a0 && b == b0 && rtxoct == 0
        invariant !split ==> gaps[..] == old(gaps[..]) && seqlost == old(seqlost)
        invariant split ==> a == 0 && b == 0 && rtxoct == f.rtxoct
        invariant split ==> gaps[..] == f.cells && seqlost == Wrap(old(seqlost) + f.lost)
        invariant rtx == old(rtx)
        decreases !split
      {
        SelfCompare();
        var i := SeekGap(a);
        if i == GAPS || EmptyCell(gaps[i]) {
          rtxoct := Wrap(rtxoct + Sub32(b, a));
          break;
        }
        if WrapCompare(b, gaps[i].b) > 0 {
          if WrapCompare(a, gaps[i].b) > 0 {
            rtxoct := Wrap(rtxoct + Sub32(b, a));
            break;
          } else {
            rtxoct := Wrap(rtxoct + Sub32(b, gaps[i].b));
            b := gaps[i].b;
          }
        }
        assert WrapCompare(a, gaps[i].a) >= 0;
        var done := EditGap(i, a, b);
        if done {
          break;
        }
        a, b, split := 0, 0, true;
      }
      retransmit := rtxoct > 0;
      if retransmit {
        rtx := Wrap(rtx + 1);
      }
    }

    /** Fill [a, b) inside gap i; `done` unless the gap was split. */
    method EditGap(i: nat, a: u32, b: u32) returns (done: bool)
      requires gaps.Length == GAPS && i < GAPS
      modifies gaps, this`seqlost
      ensures gaps[..] == EditCells(old(gaps[..]), i, a, b)
      ensures seqlost == Wrap(old(seqlost) + EditLost(old(gaps[..]), i, a, b))
    {
      done := true;
      if a == gaps[i].a && b == gaps[i].b {
        GapShift(i);
      } else if b == gaps[i].b {
        gaps[i] := Cell(gaps[i].a, a);
      } else if a == gaps[i].a {
        gaps[i] := Cell(b, gaps[i].b);
      } else {
        SplitGap(i, a, b);
        done := false;
      }
    }

    /** Split gap i around [a, b); below the last cell there is no room for the lower half. */
    method SplitGap(i: nat, a: u32, b: u32)
      requires gaps.Length == GAPS && i < GAPS
      modifies gaps, this`seqlost
      ensures gaps[..] == SplitCells(old(gaps[..]), i, a, b)
      ensures seqlost == Wrap(old(seqlost) + CellSize(old(gaps[GAPS - 1])))
    {
      var lost := GapUnshift(i);
      seqlost := Wrap(seqlost + lost);
      gaps[i] := Cell(b, gaps[i].b);
      if i + 1 < GAPS {
        gaps[i + 1] := Cell(gaps[i + 1].a, a);
      }
    }

    /** A later segment (qfSeqSegment).  `s` is its unbounded sequence number. */
    method SegmentArrives(sn: u32, oct: u32, mss: nat, ghost s: int) returns (advanced: bool)
      requires Valid() && sn == Wrap(s) && SegmentInWindow(track, s, oct)
      modifies this, gaps
      ensures Valid() && track == Segment(old(track), s, oct)
      ensures first == old(first) && syn == old(syn)
      ensures events == old(events) + [SeqLoss.Arrive(SeqLoss.Seg(s, oct))]
      ensures epoch == old(epoch) && isn == old(isn)
      ensures advanced <==> oct > 0 && s >= old(track).nsn
      ensures ooo == (old(ooo) + if oct > 0 && s > old(track).nsn then (s - old(track).nsn) / (mss + 1) + 1 else 0)
                     % 0x1_0000_0000
    {
      hide Refined, SegmentInWindow, Segment, SeqLoss.Run, Stack;
      AppendSegment(first, syn, events, s, oct);
      advanced := Accept(sn, oct, mss, s);
      events := events + [SeqLoss.Arrive(SeqLoss.Seg(s, oct))];
    }

    method Accept(sn: u32, oct: u32, mss: nat, ghost s: int) returns (advanced: bool)
      requires Refined() && sn == Wrap(s) && SegmentInWindow(track, s, oct)
      modifies this`nsn, this`wrapct, this`ooo, this`seqlost, this`rtx, this`track, gaps
      ensures Refined() && track == Segment(old(track), s, oct)
      ensures advanced <==> oct > 0 && s >= old(track).nsn
      ensures ooo == Wrap(old(ooo) + OutOfOrder(old(track), s, oct, mss))
    {
      WrapSmall();
      if oct == 0 {
        return false;
      }
      WrapIsOrder(s, track.nsn);
      hide Segment, Cells, SegmentInWindow;
      if WrapCompare(sn, nsn) < 0 {
        FillBelow(sn, oct, s);
        return false;
      }
      Advance(sn, oct, mss, s);
      return true;
    }

    /** A segment at or beyond nsn: push the gap it leaves, if any, and move nsn past it. */
    method Advance(sn: u32, oct: u32, mss: nat, ghost s: int)
      requires Refined() && sn == Wrap(s) && SegmentInWindow(track, s, oct) && oct > 0 && s >= track.nsn
      modifies this`nsn, this`wrapct, this`ooo, this`seqlost, this`rtx, this`track, gaps
      ensures Refined() && track == Segment(old(track), s, oct)
      ensures ooo == Wrap(old(ooo) + OutOfOrder(old(track), s, oct, mss))
    {
      hide Fill, Cells, PushCells, PushLost, Truncate, WrapCompare, Sub32, Wrap, Reckoned;
      WrapSmall();
      ghost var t := track;
      ghost var t' := Segment(t, s, oct);
      SegmentStack(t, s, oct);
      SegmentNarrow(t, s, oct);
      WrapIsOrder(s, t.nsn);
      WrapAdd(s, oct);
      EpochAdvances(t.nsn, s + oct, epoch);
      if sn != nsn {
        PushRefines(t.gaps, t.nsn, s);
        WrapAdd(t.seqlost, Evicted(t.gaps));
        GapPush(nsn, sn, mss);
      }
      hide Stack, Narrow, InWindow;
      if Wrap(sn + oct) < nsn {
        wrapct := Wrap(wrapct + 1);
      }
      nsn := Wrap(sn + oct);
      track := t';
    }

    /** The part of a segment's arrival that fills gaps. */
    method FillBelow(sn: u32, oct: u32, ghost s: int)
      requires Refined() && sn == Wrap(s) && SegmentInWindow(track, s, oct) && oct > 0 && s < track.nsn
      modifies this`nsn, this`wrapct, this`seqlost, this`rtx, this`track, gaps
      ensures Refined() && track == Segment(old(track), s, oct)
    {
      hide Fill, FillCells, Cells, Wrap;
      ghost var t := track;
      SegmentStack(t, s, oct);
      SegmentNarrow(t, s, oct);
      FillRefines(t.gaps, t.nsn, s, s + oct);
      WrapAdd(s, oct);
      var retransmit := GapFill(sn, Wrap(sn + oct));
      WrapAdd(t.seqlost, Fill(t.gaps, s, s + oct).lost);
      WrapAdd(t.rtx, 1);
      WrapAdd(t.rtx, 0);
      track := Segment(t, s, oct);
    }

    /** Add every gap to the loss count and clear its cell. */
    method DrainGaps(ghost t: Track)
      requires gaps.Length == GAPS && Narrow(t.gaps) && |t.gaps| <= GAPS
      requires gaps[..] == Cells(t.gaps) && seqlost == Wrap(t.seqlost)
      modifies gaps, this`seqlost
      ensures seqlost == Wrap(SeqLoss.CountLost(t)) && gaps[..] == Cells([])
    {
      hide Wrap, Sub32, EmptyCell, Size, Cells;
      var i := 0;
      NoneCounted(t);
      while i < GAPS && !EmptyCell(gaps[i])
        invariant i <= |t.gaps|
        invariant seqlost == Wrap(t.seqlost + Size(t.gaps[..i]))
        invariant forall k :: 0 <= k < GAPS ==>
          gaps[k] == if k < i || k >= |t.gaps| then NoGap else Lower(t.gaps[k])
      {
        CountOne(t, i);
        seqlost := Wrap(seqlost + Sub32(gaps[i].b, gaps[i].a));
        gaps[i] := NoGap;
        i := i + 1;
      }
      AllCounted(t, i, gaps);
      CellsEqual(gaps[..], []);
    }

    /** Give up on all gaps and return the loss count (qfSeqCountLost). The count is exact if and
        only if it is below 2^32, and is then at least the octets between the first segment and
        nsn that never arrived. */
    method CountLost() returns (lost: u32)
      requires Valid()
      modifies this, gaps
      ensures Valid() && events == old(events) + [SeqLoss.Tally]
      ensures first == old(first) && syn == old(syn) && epoch == old(epoch) && isn == old(isn)
      ensures
        var count := SeqLoss.CountLost(old(track));
        && (lost == count <==> count < TWO32)
        && (count < TWO32 ==> lost >= |SeqLoss.Unseen(first, syn, old(events))|)
        && lost == Wrap(count) && SeqLoss.CountLost(track) == count
    {
      hide Refined, SeqLoss.Run, SeqLoss.Unseen, SeqLoss.CountLost;
      Reported(first, syn, events);
      AppendTally(first, syn, events);
      lost := Drop();
      events := events + [SeqLoss.Tally];
    }

    method Drop() returns (lost: u32)
      requires Refined()
      modifies this`seqlost, this`track, gaps
      ensures Refined() && track == Dropped(old(track))
      ensures lost == Wrap(SeqLoss.CountLost(old(track)))
    {
      hide Cells, Wrap;
      ghost var t := track;
      DrainGaps(t);
      CountLostTwice(t);
      track := Dropped(t);
      lost := seqlost;
    }
  }

  /** All gaps given up. */
  ghost function Dropped(t: Track): Track
    requires Stack(t.gaps, t.nsn)
  {
    SeqLoss.Step(t, SeqLoss.Tally)
  }

  lemma AppendSegment(first: SeqLoss.Seg, syn: bool, es: seq<SeqLoss.Event>, s: int, oct: nat)
    ensures
      SeqLoss.Run(first, syn, es + [SeqLoss.Arrive(SeqLoss.Seg(s, oct))])
      == Segment(SeqLoss.Run(first, syn, es), s, oct)
  {
    hide Segment;
    var es' := es + [SeqLoss.Arrive(SeqLoss.Seg(s, oct))];
    assert es'[..|es|] == es;
  }

  lemma AppendTally(first: SeqLoss.Seg, syn: bool, es: seq<SeqLoss.Event>)
    ensures
      var t := SeqLoss.Run(first, syn, es);
      && SeqLoss.Run(first, syn, es + [SeqLoss.Tally]) == Dropped(t)
      && SeqLoss.CountLost(Dropped(t)) == SeqLoss.CountLost(t)
  {
    assert (es + [SeqLoss.Tally])[..|es|] == es;
    CountLostTwice(SeqLoss.Run(first, syn, es));
  }

  /** The 32-bit count is exact if and only if the count is below 2^32, and then no octet that
      never arrived goes unreported. */
  lemma Reported(first: SeqLoss.Seg, syn: bool, es: seq<SeqLoss.Event>)
    ensures
      var count := SeqLoss.CountLost(SeqLoss.Run(first, syn, es));
      && (Wrap(count) == count <==> count < TWO32)
      && (count < TWO32 ==> Wrap(count) >= |SeqLoss.Unseen(first, syn, es)|)
  {
    hide SeqLoss.CountLost, SeqLoss.Run, SeqLoss.Unseen;
    SeqLoss.LossNotUnderCounted(first, syn, es);
    CountLostTwice(SeqLoss.Run(first, syn, es));
  }

  /** A run that spans less than 2^32 octets, and in which no segment splits the lowest cell of a
      full stack, is reported exactly: the octets that never arrived, and those that arrived only in
      segments that did not account for them. */
  lemma ReportedWithinSpan(first: SeqLoss.Seg, syn: bool, es: seq<SeqLoss.Event>)
    requires SeqLoss.NoLastSplit(first, syn, es)
    requires SeqLoss.Run(first, syn, es).nsn - (first.s + first.oct) < TWO32
    ensures
      var count := SeqLoss.CountLost(SeqLoss.Run(first, syn, es));
      Wrap(count) == count == |SeqLoss.Unseen(first, syn, es)| + |SeqExact.Uncredited(first, syn, es)|
  {
    hide SeqLoss.CountLost, SeqLoss.Run, SeqLoss.Unseen, SeqLoss.NoLastSplit, SeqExact.Uncredited;
    SeqExact.LossIsExact(first, syn, es);
    SeqLoss.CountWithinSpan(first, syn, es);
    Reported(first, syn, es);
  }

  lemma NoneCounted(t: Track)
    ensures t.seqlost + Size(t.gaps[..0]) == t.seqlost && EmptyCell(NoGap)
  {
  }

  /** One turn of the counting loop. */
  lemma CountOne(t: Track, i: nat)
    requires Narrow(t.gaps) && i <= |t.gaps|
    ensures i < |t.gaps| ==>
      var c := Lower(t.gaps[i]);
      Wrap(Wrap(t.seqlost + Size(t.gaps[..i])) + Sub32(c.b, c.a)) == Wrap(t.seqlost + Size(t.gaps[..i + 1]))
  {
    if i < |t.gaps| {
      NarrowCell(t.gaps[i]);
      assert t.gaps[..i + 1][..i] == t.gaps[..i];
      WrapAdd(t.seqlost + Size(t.gaps[..i]), t.gaps[i].b - t.gaps[i].a);
    }
  }

  /** The loop stops at the first empty cell, which is past the last gap. */
  lemma AllCounted(t: Track, i: nat, gaps: array<Cell>)
    requires gaps.Length == GAPS && Narrow(t.gaps) && i <= |t.gaps| <= GAPS
    requires i < |t.gaps| ==> gaps[i] == Lower(t.gaps[i])
    requires i == GAPS || EmptyCell(gaps[i])
    ensures i == |t.gaps| && t.gaps[..i] == t.gaps
  {
    if i < |t.gaps| {
      NarrowCell(t.gaps[i]);
    }
  }

  /** Counting the loss a second time returns the same value. */
  lemma CountLostTwice(t: Track)
    requires Stack(t.gaps, t.nsn)
    ensures SeqLoss.CountLost(t) >= 0
    ensures SeqLoss.CountLost(t.(gaps := [], seqlost := SeqLoss.CountLost(t))) == SeqLoss.CountLost(t)
  {
    SeqLoss.MissingSize(t.gaps);
  }
}
