/** Loss is never under-reported: over every run of segments, the octets that qofseq reports
    as lost are at least the octets between the first segment and nsn that never arrived. */
module SeqLoss {
  import opened SeqSpec

  /** The octets of [a, b). */
  function Range(a: int, b: int): (r: set<int>)
    ensures forall x :: x in r <==> a <= x < b
    ensures |r| == if a < b then b - a else 0
    decreases b - a
  {
    if a >= b then {} else Range(a, b - 1) + {b - 1}
  }

  /** Octets inside some gap. */
  ghost predicate InGap(gs: seq<Gap>, x: int) {
    exists i :: 0 <= i < |gs| && gs[i].a <= x < gs[i].b
  }

  function Missing(gs: seq<Gap>): set<int> {
    if gs == [] then {} else Missing(gs[..|gs| - 1]) + Range(gs[|gs| - 1].a, gs[|gs| - 1].b)
  }

  lemma InGapLast(gs: seq<Gap>, x: int)
    requires gs != []
    ensures
      var n := |gs| - 1;
      InGap(gs, x) <==> InGap(gs[..n], x) || gs[n].a <= x < gs[n].b
  {
    var n := |gs| - 1;
    if InGap(gs[..n], x) {
      var i :| 0 <= i < n && gs[..n][i].a <= x < gs[..n][i].b;
      assert gs[i].a <= x < gs[i].b;
    }
    if InGap(gs, x) && !(gs[n].a <= x < gs[n].b) {
      var i :| 0 <= i < |gs| && gs[i].a <= x < gs[i].b;
      assert gs[..n][i] == gs[i];
    }
  }

  lemma MissingLast(gs: seq<Gap>, x: int)
    requires gs != []
    ensures
      var n := |gs| - 1;
      x in Missing(gs) <==> x in Missing(gs[..n]) || gs[n].a <= x < gs[n].b
  {
  }

  lemma {:induction false} MissingIsInGap(gs: seq<Gap>, x: int)
    ensures x in Missing(gs) <==> InGap(gs, x)
  {
    if gs != [] {
      hide Missing, InGap;
      MissingIsInGap(gs[..|gs| - 1], x);
      InGapLast(gs, x);
      MissingLast(gs, x);
    }
  }

  lemma {:induction false} MissingSize(gs: seq<Gap>)
    requires forall i :: 0 <= i < |gs| ==> gs[i].a < gs[i].b
    ensures |Missing(gs)| <= Size(gs)
  {
    if gs != [] {
      var n := |gs| - 1;
      MissingSize(gs[..n]);
      UnionSize(Missing(gs[..n]), Range(gs[n].a, gs[n].b));
    }
  }

  lemma UnionSize(x: set<int>, y: set<int>)
    ensures |x + y| <= |x| + |y|
  {
    assert |x + y| == |x| + |y - x| by {
      assert x + y == x + (y - x);
    }
    SubsetSize(y - x, y);
  }

  lemma SubsetSize(x: set<int>, y: set<int>)
    requires x <= y
    ensures |x| <= |y|
  {
    assert y == x + (y - x);
  }

  // ---- a fill removes part of the segment and nothing else ----

  /** The gap given up by a fill, if any, is at most as large as the octets counted lost. */
  ghost function Dropped(gs: seq<Gap>, a: int, b: int): (g: Gap)
    requires a < b && |gs| <= GAPS && forall i :: 0 <= i < |gs| ==> gs[i].a < gs[i].b
    ensures g.b - g.a <= Fill(gs, a, b).lost
  {
    var i := Seek(gs, a);
    if i == |gs| || a <= gs[i].a || gs[i].b <= b || gs[i].b <= a then Gap(0, 0)
    else if i == GAPS - 1 then Gap(gs[i].a, a)
    else if |gs| == GAPS then gs[GAPS - 1]
    else Gap(0, 0)
  }

  /** Each fill leaves a gap set between "old minus segment" and "old", up to the gap given
      up by a split. */
  lemma FillKeeps(gs: seq<Gap>, n: int, a: int, b: int, x: int)
    requires Stack(gs, n) && a < b
    ensures
      var r := Fill(gs, a, b).gaps;
      var d := Dropped(gs, a, b);
      && (InGap(r, x) ==> InGap(gs, x))
      && (InGap(gs, x) && !(a <= x < b) ==> InGap(r, x) || d.a <= x < d.b)
  {
    hide InGap, Truncate;
    var i := Seek(gs, a);
    if i < |gs| && a <= gs[i].b {
      var g := gs[i];
      var e := if b > g.b then g.b else b;
      var rest := Rest(g, a, e);
      MemberGap(gs, i, x);
      RestGaps(g, a, e, x);
      if |rest| == 2 && i == GAPS - 1 {
        ReplaceKeeps(gs, i, [Gap(b, g.b)], x);
        RestGaps(g, g.a, b, x);
        assert Rest(g, g.a, b) == [Gap(b, g.b)];
        assert gs[i := Gap(b, g.b)] == gs[..i] + [Gap(b, g.b)] + gs[i + 1..];
      } else {
        ReplaceKeeps(gs, i, rest, x);
        TruncateKeeps(gs[..i] + rest + gs[i + 1..], x);
      }
    }
  }

  lemma RestGaps(g: Gap, a: int, e: int, x: int)
    ensures InGap(Rest(g, a, e), x) <==> e <= x < g.b || g.a <= x < a
  {
    var up, lo := Gap(e, g.b), Gap(g.a, a);
    FewGaps(up, lo, x);
    assert Rest(g, a, e) == if e < g.b then (if g.a < a then [up, lo] else [up])
                            else if g.a < a then [lo] else [];
  }

  lemma FewGaps(g: Gap, h: Gap, x: int)
    ensures !InGap([], x)
    ensures InGap([g], x) <==> g.a <= x < g.b
    ensures InGap([h], x) <==> h.a <= x < h.b
    ensures InGap([g, h], x) <==> g.a <= x < g.b || h.a <= x < h.b
  {
    assert [g][0] == g && [h][0] == h && [g, h][0] == g && [g, h][1] == h;
  }

  lemma MemberGap(gs: seq<Gap>, i: nat, x: int)
    requires i < |gs|
    ensures gs[i].a <= x < gs[i].b ==> InGap(gs, x)
  {
  }

  /** Octets in gaps when one cell is replaced by cells inside it. */
  lemma ReplaceKeeps(gs: seq<Gap>, i: nat, mid: seq<Gap>, x: int)
    requires i < |gs|
    ensures
      var r := gs[..i] + mid + gs[i + 1..];
      && (InGap(r, x) ==> InGap(mid, x) || InGap(gs, x))
      && (InGap(mid, x) ==> InGap(r, x))
      && (InGap(gs, x) && !(gs[i].a <= x < gs[i].b) ==> InGap(r, x))
  {
    var r := gs[..i] + mid + gs[i + 1..];
    if InGap(r, x) {
      var j :| 0 <= j < |r| && r[j].a <= x < r[j].b;
      if j < i {
        assert r[j] == gs[j];
      } else if j < i + |mid| {
        assert r[j] == mid[j - i];
      } else {
        assert r[j] == gs[j - |mid| + 1];
      }
    }
    if InGap(mid, x) {
      var j :| 0 <= j < |mid| && mid[j].a <= x < mid[j].b;
      assert r[i + j] == mid[j];
    }
    if InGap(gs, x) && !(gs[i].a <= x < gs[i].b) {
      var j :| 0 <= j < |gs| && gs[j].a <= x < gs[j].b;
      if j < i {
        assert r[j] == gs[j];
      } else {
        assert r[j - 1 + |mid|] == gs[j];
      }
    }
  }

  lemma TruncateKeeps(gs: seq<Gap>, x: int)
    requires |gs| <= GAPS + 1
    ensures InGap(Truncate(gs), x) ==> InGap(gs, x)
    ensures InGap(gs, x) ==> InGap(Truncate(gs), x) || (|gs| == GAPS + 1 && gs[GAPS].a <= x < gs[GAPS].b)
  {
    var r := Truncate(gs);
    if InGap(r, x) {
      var j :| 0 <= j < |r| && r[j].a <= x < r[j].b;
      assert gs[j] == r[j];
    }
    if InGap(gs, x) {
      var j :| 0 <= j < |gs| && gs[j].a <= x < gs[j].b;
      assert j < GAPS ==> r[j] == gs[j];
    }
  }

  /** Where an octet lies when one cell has been replaced. */
  lemma ReplaceWhere(gs: seq<Gap>, i: nat, mid: seq<Gap>, x: int)
    requires i < |gs| && InGap(gs[..i] + mid + gs[i + 1..], x)
    ensures InGap(mid, x) || exists j :: 0 <= j < |gs| && j != i && gs[j].a <= x < gs[j].b
  {
    var r := gs[..i] + mid + gs[i + 1..];
    var j :| 0 <= j < |r| && r[j].a <= x < r[j].b;
    if j < i {
      assert r[j] == gs[j];
    } else if j < i + |mid| {
      assert r[j] == mid[j - i];
    } else {
      assert r[j] == gs[j - |mid| + 1];
    }
  }

  lemma LastCellFills(gs: seq<Gap>, n: int, i: nat, b: int, x: int)
    requires Stack(gs, n) && i < |gs| && gs[i].a <= x < b <= gs[i].b
    ensures !InGap(gs[i := Gap(b, gs[i].b)], x)
  {
  }

  /** An octet of the segment that is still missing afterwards lies in a gap that starts
      strictly inside the segment: those gaps are not looked at. */
  lemma StillMissing(gs: seq<Gap>, n: int, a: int, b: int, x: int)
    requires Stack(gs, n) && a < b && a <= x < b && InGap(Fill(gs, a, b).gaps, x)
    ensures exists j :: 0 <= j < |gs| && a < gs[j].a <= x
  {
    hide Truncate;
    var i := Seek(gs, a);
    if i == |gs| || a > gs[i].b {
      var j :| 0 <= j < |gs| && gs[j].a <= x < gs[j].b;
      assert j < i;
    } else {
      hide InGap;
      var g := gs[i];
      var e := if b > g.b then g.b else b;
      var rest := Rest(g, a, e);
      if |rest| == 2 && i == GAPS - 1 {
        LastCellFills(gs, n, i, b, x);
        assert false;
      } else {
        RestGaps(g, a, e, x);
        TruncateKeeps(gs[..i] + rest + gs[i + 1..], x);
        ReplaceWhere(gs, i, rest, x);
      }
      var j :| 0 <= j < |gs| && j != i && gs[j].a <= x < gs[j].b;
      assert j < i;
    }
  }

  /** The segment falls strictly inside a gap of a full stack: the split has no free cell. */
  predicate FullSplit(gs: seq<Gap>, a: int, b: int) {
    var i := Seek(gs, a);
    |gs| == GAPS && i < |gs| && gs[i].a < a && b < gs[i].b
  }

  /** Octets are given up exactly by a split of a full stack. */
  lemma LostIsFullSplit(gs: seq<Gap>, n: int, a: int, b: int)
    requires Stack(gs, n) && a < b
    ensures Fill(gs, a, b).lost == 0 <==> !FullSplit(gs, a, b)
  {
    hide Truncate;
  }

  /** The start of the lowest gap is lost when a full stack is split. */
  lemma SplitLoses(gs: seq<Gap>, n: int, a: int, b: int)
    requires Stack(gs, n) && a < b && FullSplit(gs, a, b)
    ensures
      var x := gs[GAPS - 1].a;
      InGap(gs, x) && x < a && !InGap(Fill(gs, a, b).gaps, x)
  {
    var i, x := Seek(gs, a), gs[GAPS - 1].a;
    var r := Fill(gs, a, b).gaps;
    MemberGap(gs, GAPS - 1, x);
    if i == GAPS - 1 {
      assert r == gs[i := Gap(b, gs[i].b)];
      NotInAny(r, x);
    } else {
      var all := gs[..i] + Rest(gs[i], a, b) + gs[i + 1..];
      assert r == all[..GAPS] && all[GAPS] == gs[GAPS - 1];
      SplitAbove(gs, n, i, a, b, x);
    }
  }

  lemma NotInAny(r: seq<Gap>, x: int)
    requires forall j :: 0 <= j < |r| ==> x < r[j].a
    ensures !InGap(r, x)
  {
  }

  /** All cells left by a split above the lowest gap start above it. */
  lemma SplitAbove(gs: seq<Gap>, n: int, i: nat, a: int, b: int, x: int)
    requires Stack(gs, n) && |gs| == GAPS && i < GAPS - 1 && gs[i].a < a < b < gs[i].b && x == gs[GAPS - 1].a
    ensures
      var r := (gs[..i] + Rest(gs[i], a, b) + gs[i + 1..])[..GAPS];
      !InGap(r, x)
  {
    var up, lo := Gap(b, gs[i].b), Gap(gs[i].a, a);
    assert Rest(gs[i], a, b) == [up, lo];
    var r := (gs[..i] + [up, lo] + gs[i + 1..])[..GAPS];
    forall j | 0 <= j < |r|
      ensures x < r[j].a
    {
      if j < i {
        assert r[j] == gs[j];
      } else if j >= i + 2 {
        assert r[j] == gs[j - 1];
      }
    }
    NotInAny(r, x);
  }

  /** A fill removes exactly the segment if and only if no gap starts strictly inside the segment
      and the segment does not split a gap of a full stack. */
  lemma FillExact(gs: seq<Gap>, n: int, a: int, b: int)
    requires Stack(gs, n) && a < b
    ensures (forall x :: InGap(Fill(gs, a, b).gaps, x) <==> InGap(gs, x) && !(a <= x < b))
       <==> (forall i :: 0 <= i < |gs| ==> !(a < gs[i].a < b)) && !FullSplit(gs, a, b)
  {
    hide Fill, Dropped, InGap, FullSplit;
    var r := Fill(gs, a, b).gaps;
    LostIsFullSplit(gs, n, a, b);
    if FullSplit(gs, a, b) {
      SplitLoses(gs, n, a, b);
    } else if exists i :: 0 <= i < |gs| && a < gs[i].a < b {
      var i :| 0 <= i < |gs| && a < gs[i].a < b;
      NotReached(gs, a, b, i);
      assert InGap(r, gs[i].a) && a <= gs[i].a < b;
    } else {
      forall x
        ensures InGap(r, x) <==> InGap(gs, x) && !(a <= x < b)
      {
        FillKeeps(gs, n, a, b, x);
        if InGap(r, x) && a <= x < b {
          StillMissing(gs, n, a, b, x);
          assert false;
        }
      }
    }
  }

  lemma NotReached(gs: seq<Gap>, a: int, b: int, i: nat)
    requires a < b && i < |gs| && a < gs[i].a && (forall j :: 0 <= j < |gs| ==> gs[j].a < gs[j].b)
    requires |gs| <= GAPS && (forall j, k :: 0 <= j < k < |gs| ==> gs[k].b < gs[j].a)
    ensures InGap(Fill(gs, a, b).gaps, gs[i].a)
  {
    var r := Fill(gs, a, b).gaps;
    assert i < Seek(gs, a);
    assert r[i] == gs[i];
  }

  // ---- the octet ledger ----

  /** Octets of the segment that were in a gap before it and are in none after it. */
  ghost function Recovered(gs: seq<Gap>, a: int, b: int): set<int>
    requires a < b && forall i :: 0 <= i < |gs| ==> gs[i].a < gs[i].b
  {
    set x | x in Range(a, b) && InGap(gs, x) && !InGap(Fill(gs, a, b).gaps, x)
  }

  /** The part of the segment inside the gap that the seek stops at. */
  function Hit(gs: seq<Gap>, a: int, b: int): Gap {
    var i := Seek(gs, a);
    if i == |gs| || a > gs[i].b then Gap(a, a)
    else Gap(a, if b > gs[i].b then gs[i].b else b)
  }

  /** A gap that starts above the segment's start is left alone. */
  lemma AboveKept(gs: seq<Gap>, n: int, a: int, b: int, j: nat, x: int)
    requires Stack(gs, n) && a < b && j < Seek(gs, a) && gs[j].a <= x < gs[j].b
    ensures InGap(Fill(gs, a, b).gaps, x)
  {
    var r := Fill(gs, a, b).gaps;
    assert r[j] == gs[j];
  }

  lemma InHit(gs: seq<Gap>, n: int, a: int, b: int, x: int)
    requires Stack(gs, n) && a < b && a <= x < b
    ensures InGap(gs, x) && !InGap(Fill(gs, a, b).gaps, x) <==> Hit(gs, a, b).a <= x < Hit(gs, a, b).b
  {
    hide Fill;
    var i := Seek(gs, a);
    if Hit(gs, a, b).a <= x < Hit(gs, a, b).b {
      MemberGap(gs, i, x);
      if InGap(Fill(gs, a, b).gaps, x) {
        StillMissing(gs, n, a, b, x);
        assert false;
      }
    } else if InGap(gs, x) {
      var j :| 0 <= j < |gs| && gs[j].a <= x < gs[j].b;
      AboveKept(gs, n, a, b, j, x);
    }
  }

  lemma RecoveredIsHit(gs: seq<Gap>, n: int, a: int, b: int)
    requires Stack(gs, n) && a < b
    ensures Recovered(gs, a, b) == Range(Hit(gs, a, b).a, Hit(gs, a, b).b)
  {
    hide InGap, Fill;
    var h, r := Hit(gs, a, b), Recovered(gs, a, b);
    forall x
      ensures x in r <==> x in Range(h.a, h.b)
    {
      if a <= x < b {
        InHit(gs, n, a, b, x);
      }
    }
  }

  lemma HitSize(gs: seq<Gap>, n: int, a: int, b: int)
    requires Stack(gs, n) && a < b
    ensures
      var h := Hit(gs, a, b);
      h.a <= h.b && h.b - h.a == NewOctets(gs, a, b)
  {
  }

  /** The octets recovered all come out of the gap that the seek stops at. */
  lemma RecoveredFromOne(gs: seq<Gap>, n: int, a: int, b: int)
    requires Stack(gs, n) && a < b
    ensures exists i :: 0 <= i <= |gs| && forall x :: x in Recovered(gs, a, b) ==> i < |gs| && gs[i].a <= x < gs[i].b
  {
    RecoveredIsHit(gs, n, a, b);
    hide Fill, InGap, Recovered;
    var i := Seek(gs, a);
    assert forall x :: x in Recovered(gs, a, b) ==> i < |gs| && gs[i].a <= x < gs[i].b;
  }

  /** What a below-nsn segment does to the octets: those it recovers all come out of one gap,
      the others are counted as retransmitted, and there is one of those exactly when some octet
      of the segment was not missing. */
  lemma FillLedger(gs: seq<Gap>, n: int, a: int, b: int)
    requires Stack(gs, n) && a < b
    ensures
      var f := Fill(gs, a, b);
      && |Recovered(gs, a, b)| + f.rtxoct == b - a
      && (f.rtxoct > 0 <==> exists x :: a <= x < b && !InGap(gs, x))
      && (exists i :: 0 <= i <= |gs| && forall x :: x in Recovered(gs, a, b) ==> i < |gs| && gs[i].a <= x < gs[i].b)
      && Size(f.gaps) + f.lost == Size(gs) - |Recovered(gs, a, b)|
           + (if LastCellSplit(gs, a, b) then gs[GAPS - 1].b - a else 0)
  {
    hide InGap, LastCellSplit, Size, Fill, Recovered, Hit;
    RecoveredIsHit(gs, n, a, b);
    HitSize(gs, n, a, b);
    RecoveredFromOne(gs, n, a, b);
    FillSizes(gs, n, a, b);
    Retransmitted(gs, n, a, b);
  }

  lemma Retransmitted(gs: seq<Gap>, n: int, a: int, b: int)
    requires Stack(gs, n) && a < b
    ensures Fill(gs, a, b).rtxoct > 0 <==> exists x :: a <= x < b && !InGap(gs, x)
  {
    var i := Seek(gs, a);
    if i == |gs| || a > gs[i].b {
      assert !InGap(gs, a);
    } else if b > gs[i].b {
      assert !InGap(gs, gs[i].b);
    } else {
      forall x | a <= x < b
        ensures InGap(gs, x)
      {
        MemberGap(gs, i, x);
      }
    }
  }

  /** What a segment changes: nsn advances by the octets skipped and sent; tracked plus lost
      octets grow by the octets skipped or shrink by the octets recovered, unless a split hits
      the last cell; a retransmission is counted exactly when an octet was not missing. */
  lemma SegmentLedger(t: Track, s: int, oct: nat)
    requires Stack(t.gaps, t.nsn) && oct > 0
    ensures
      var t' := Segment(t, s, oct);
      if s >= t.nsn then
        && t'.nsn == t.nsn + (s - t.nsn) + oct
        && Size(t'.gaps) + t'.seqlost == Size(t.gaps) + t.seqlost + (s - t.nsn)
        && t'.rtx == t.rtx
      else
        && t'.nsn == t.nsn
        && Size(t'.gaps) + t'.seqlost == Size(t.gaps) + t.seqlost - |Recovered(t.gaps, s, s + oct)|
             + (if LastCellSplit(t.gaps, s, s + oct) then t.gaps[GAPS - 1].b - s else 0)
        && t'.rtx == t.rtx + (if exists x :: s <= x < s + oct && !InGap(t.gaps, x) then 1 else 0)
  {
    hide InGap, LastCellSplit, Size, Fill, Recovered;
    SegmentSizes(t, s, oct);
    if s < t.nsn {
      FillLedger(t.gaps, t.nsn, s, s + oct);
    }
  }

  // ---- runs ----

  datatype Seg = Seg(s: int, oct: nat)

  /** A segment arrives, or the loss is counted. */
  datatype Event = Arrive(g: Seg) | Tally

  /** Lost plus tracked octets. */
  function CountLost(t: Track): int {
    t.seqlost + Size(t.gaps)
  }

  lemma {:induction false} SizeIsNat(gs: seq<Gap>)
    requires forall i :: 0 <= i < |gs| ==> gs[i].a < gs[i].b
    ensures Size(gs) >= 0
  {
    MissingSize(gs);
  }

  function Step(t: Track, e: Event): (t': Track)
    requires Stack(t.gaps, t.nsn)
    ensures Stack(t'.gaps, t'.nsn)
  {
    match e
    case Arrive(g) => SegmentStack(t, g.s, g.oct); Segment(t, g.s, g.oct)
    case Tally => SizeIsNat(t.gaps); t.(gaps := [], seqlost := CountLost(t))
  }

  function Run(first: Seg, syn: bool, es: seq<Event>): (t: Track)
    ensures Stack(t.gaps, t.nsn)
  {
    if es == [] then First(first.s, first.oct, syn)
    else Step(Run(first, syn, es[..|es| - 1]), es[|es| - 1])
  }

  predicate In(g: Seg, x: int) {
    g.s <= x < g.s + g.oct
  }

  predicate Carries(e: Event, x: int) {
    e.Arrive? && In(e.g, x)
  }

  /** Octet x arrived in some segment (a SYN occupies one sequence number). */
  ghost predicate Seen(first: Seg, syn: bool, es: seq<Event>, x: int) {
    || In(first, x) || (syn && x == first.s + first.oct)
    || exists i :: 0 <= i < |es| && Carries(es[i], x)
  }

  /** The gap given up by one segment. */
  ghost function StepDropped(t: Track, x: Seg): (g: Gap)
    requires Stack(t.gaps, t.nsn)
    ensures g.b - g.a <= Segment(t, x.s, x.oct).seqlost - t.seqlost
  {
    if x.oct == 0 || x.s == t.nsn then Gap(0, 0)
    else if x.s < t.nsn then Dropped(t.gaps, x.s, x.s + x.oct)
    else if |t.gaps| == GAPS then t.gaps[GAPS - 1]
    else Gap(0, 0)
  }

  /** The octets given up in one step. */
  ghost function GivenUp(t: Track, e: Event): set<int>
    requires Stack(t.gaps, t.nsn)
  {
    match e
    case Arrive(g) => Range(StepDropped(t, g).a, StepDropped(t, g).b)
    case Tally => Missing(t.gaps)
  }

  lemma GivenUpCounted(t: Track, e: Event)
    requires Stack(t.gaps, t.nsn)
    ensures |GivenUp(t, e)| <= Step(t, e).seqlost - t.seqlost
  {
    hide Missing;
    match e
    case Arrive(g) => SeqlostGrows(t, g);
    case Tally => MissingSize(t.gaps);
  }

  lemma SeqlostGrows(t: Track, g: Seg)
    requires Stack(t.gaps, t.nsn)
    ensures Segment(t, g.s, g.oct).seqlost >= t.seqlost
  {
    hide Fill;
  }

  /** Octets given up so far. */
  ghost function Lost(first: Seg, syn: bool, es: seq<Event>): (r: set<int>)
    ensures |r| <= Run(first, syn, es).seqlost
  {
    if es == [] then {}
    else
      var t, e := Run(first, syn, es[..|es| - 1]), es[|es| - 1];
      GivenUpCounted(t, e);
      UnionSize(Lost(first, syn, es[..|es| - 1]), GivenUp(t, e));
      Lost(first, syn, es[..|es| - 1]) + GivenUp(t, e)
  }

  /** One segment accounts for its own octets and keeps every other missing octet in a gap
      or among those given up; a segment beyond nsn adds the octets it skipped. */
  lemma SegmentKeeps(t: Track, g: Seg, x: int)
    requires Stack(t.gaps, t.nsn) && !In(g, x)
    ensures
      var t' := Segment(t, g.s, g.oct);
      var d := StepDropped(t, g);
      InGap(t.gaps, x) || t.nsn <= x < t'.nsn ==> InGap(t'.gaps, x) || d.a <= x < d.b
  {
    hide InGap, Fill, Dropped;
    if g.oct > 0 && (InGap(t.gaps, x) || t.nsn <= x < Segment(t, g.s, g.oct).nsn) {
      if g.s < t.nsn {
        FillKeeps(t.gaps, t.nsn, g.s, g.s + g.oct, x);
      } else if g.s > t.nsn {
        PushKeeps(t.gaps, Gap(t.nsn, g.s), x);
      }
    }
  }

  lemma StepKeeps(t: Track, e: Event, x: int)
    requires Stack(t.gaps, t.nsn) && !Carries(e, x)
    ensures InGap(t.gaps, x) || t.nsn <= x < Step(t, e).nsn ==> InGap(Step(t, e).gaps, x) || x in GivenUp(t, e)
  {
    hide InGap, StepDropped, Segment, Missing;
    match e
    case Arrive(g) => SegmentKeeps(t, g, x);
    case Tally => MissingIsInGap(t.gaps, x);
  }

  lemma PushKeeps(gs: seq<Gap>, g: Gap, x: int)
    requires |gs| <= GAPS && (InGap(gs, x) || g.a <= x < g.b)
    ensures InGap(Truncate([g] + gs), x) || (|gs| == GAPS && gs[GAPS - 1].a <= x < gs[GAPS - 1].b)
  {
    var r := [g] + gs;
    assert InGap(r, x) by {
      if g.a <= x < g.b {
        assert r[0] == g;
      } else {
        var i :| 0 <= i < |gs| && gs[i].a <= x < gs[i].b;
        assert r[i + 1] == gs[i];
      }
    }
    TruncateKeeps(r, x);
  }

  lemma SeenBefore(first: Seg, syn: bool, es: seq<Event>, x: int)
    requires es != [] && !Seen(first, syn, es, x)
    ensures !Seen(first, syn, es[..|es| - 1], x) && !Carries(es[|es| - 1], x)
  {
    hide Carries;
    var n := |es| - 1;
    forall i | 0 <= i < n
      ensures !Carries(es[..n][i], x)
    {
      assert es[..n][i] == es[i];
    }
  }

  /** In every run, an octet between the first segment and nsn that never arrived is in a gap
      or has been given up. */
  lemma {:induction false} UnseenIsTracked(first: Seg, syn: bool, es: seq<Event>, x: int)
    requires first.s <= x < Run(first, syn, es).nsn && !Seen(first, syn, es, x)
    ensures InGap(Run(first, syn, es).gaps, x) || x in Lost(first, syn, es)
  {
    if es != [] {
      hide InGap, Step, GivenUp, Seen, Carries;
      var n := |es| - 1;
      var t := Run(first, syn, es[..n]);
      SeenBefore(first, syn, es, x);
      if x < t.nsn {
        UnseenIsTracked(first, syn, es[..n], x);
      }
      StepKeeps(t, es[n], x);
    }
  }

  ghost function Unseen(first: Seg, syn: bool, es: seq<Event>): set<int> {
    set x | x in Range(first.s, Run(first, syn, es).nsn) && !Seen(first, syn, es, x)
  }

  /** In every run, lost plus tracked octets are at least the octets between the first segment
      and nsn that never arrived. */
  lemma LossNotUnderCounted(first: Seg, syn: bool, es: seq<Event>)
    ensures CountLost(Run(first, syn, es)) >= |Unseen(first, syn, es)|
  {
    hide Run, Lost, Seen, Missing;
    var t := Run(first, syn, es);
    var u := Unseen(first, syn, es);
    var m := Missing(t.gaps);
    var l := Lost(first, syn, es);
    forall x | x in u
      ensures x in m + l
    {
      UnseenIsTracked(first, syn, es, x);
      MissingIsInGap(t.gaps, x);
    }
    SubsetSize(u, m + l);
    UnionSize(m, l);
    MissingSize(t.gaps);
  }

  // ---- the ledger of a whole run ----

  /** Octets that one step skips: a segment beyond nsn. */
  function StepSkips(t: Track, e: Event): nat {
    if e.Arrive? && e.g.oct > 0 && e.g.s >= t.nsn then e.g.s - t.nsn else 0
  }

  /** Octets that one step takes out of gaps: a segment below nsn. */
  ghost function StepFills(t: Track, e: Event): nat
    requires Stack(t.gaps, t.nsn)
  {
    if e.Arrive? && e.g.oct > 0 && e.g.s < t.nsn then |Recovered(t.gaps, e.g.s, e.g.s + e.g.oct)| else 0
  }

  /** The segment splits the lowest cell of a full stack. */
  predicate SplitsLast(t: Track, e: Event) {
    e.Arrive? && e.g.oct > 0 && e.g.s < t.nsn && LastCellSplit(t.gaps, e.g.s, e.g.s + e.g.oct)
  }

  /** Octets that such a split counts twice. */
  function StepExcess(t: Track, e: Event): int {
    if SplitsLast(t, e) then t.gaps[GAPS - 1].b - e.g.s else 0
  }

  function Skipped(first: Seg, syn: bool, es: seq<Event>): nat {
    if es == [] then 0
    else Skipped(first, syn, es[..|es| - 1]) + StepSkips(Run(first, syn, es[..|es| - 1]), es[|es| - 1])
  }

  ghost function Filled(first: Seg, syn: bool, es: seq<Event>): nat {
    if es == [] then 0
    else Filled(first, syn, es[..|es| - 1]) + StepFills(Run(first, syn, es[..|es| - 1]), es[|es| - 1])
  }

  function Excess(first: Seg, syn: bool, es: seq<Event>): int {
    if es == [] then 0
    else Excess(first, syn, es[..|es| - 1]) + StepExcess(Run(first, syn, es[..|es| - 1]), es[|es| - 1])
  }

  lemma ArriveLedger(t: Track, g: Seg)
    requires Stack(t.gaps, t.nsn)
    ensures
      var t', e := Segment(t, g.s, g.oct), Arrive(g);
      && CountLost(t') == CountLost(t) + StepSkips(t, e) - StepFills(t, e) + StepExcess(t, e)
      && t'.nsn >= t.nsn + StepSkips(t, e)
  {
    hide Recovered, LastCellSplit, Size, InGap, Segment;
    if g.oct == 0 {
      EmptySegment(t, g.s);
    } else {
      SegmentLedger(t, g.s, g.oct);
    }
  }

  lemma EmptySegment(t: Track, s: int)
    requires Stack(t.gaps, t.nsn)
    ensures Segment(t, s, 0) == t
  {
  }

  lemma StepLedger(t: Track, e: Event)
    requires Stack(t.gaps, t.nsn)
    ensures
      var t' := Step(t, e);
      && CountLost(t') == CountLost(t) + StepSkips(t, e) - StepFills(t, e) + StepExcess(t, e)
      && t'.nsn >= t.nsn + StepSkips(t, e)
  {
    hide Segment, Size, LastCellSplit, Recovered;
    match e
    case Arrive(g) => ArriveLedger(t, g);
    case Tally => TallyCounts(t);
  }

  lemma TallyCounts(t: Track)
    requires Stack(t.gaps, t.nsn)
    ensures CountLost(Step(t, Tally)) == CountLost(t) && Step(t, Tally).nsn == t.nsn
  {
  }

  /** Over every run, the loss counted is the octets skipped less the octets recovered, plus what
      splits of the lowest cell counted twice; and the skipped octets lie below nsn. */
  lemma {:induction false} RunLedger(first: Seg, syn: bool, es: seq<Event>)
    ensures
      var t := Run(first, syn, es);
      && CountLost(t) == Skipped(first, syn, es) - Filled(first, syn, es) + Excess(first, syn, es)
      && first.s + first.oct + Skipped(first, syn, es) <= t.nsn
  {
    hide Step, CountLost, StepSkips, StepFills, StepExcess;
    if es == [] {
      NothingCounted(first, syn);
    } else {
      RunLedger(first, syn, es[..|es| - 1]);
      StepLedger(Run(first, syn, es[..|es| - 1]), es[|es| - 1]);
    }
  }

  lemma NothingCounted(first: Seg, syn: bool)
    ensures CountLost(Run(first, syn, [])) == 0
  {
  }

  /** No segment of the run splits the lowest cell of a full stack. */
  predicate NoLastSplit(first: Seg, syn: bool, es: seq<Event>) {
    es != [] ==>
      && NoLastSplit(first, syn, es[..|es| - 1])
      && !SplitsLast(Run(first, syn, es[..|es| - 1]), es[|es| - 1])
  }

  /** Without such splits, the loss counted is at most the span of the run. */
  lemma {:induction false} CountWithinSpan(first: Seg, syn: bool, es: seq<Event>)
    requires NoLastSplit(first, syn, es)
    ensures Excess(first, syn, es) == 0
    ensures CountLost(Run(first, syn, es)) <= Run(first, syn, es).nsn - (first.s + first.oct)
  {
    hide Run, SplitsLast, CountLost;
    RunLedger(first, syn, es);
    NoExcess(first, syn, es);
  }

  lemma {:induction false} NoExcess(first: Seg, syn: bool, es: seq<Event>)
    requires NoLastSplit(first, syn, es)
    ensures Excess(first, syn, es) == 0
  {
    hide Run, SplitsLast;
    if es != [] {
      NoExcess(first, syn, es[..|es| - 1]);
    }
  }
}
