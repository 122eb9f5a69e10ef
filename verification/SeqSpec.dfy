/** Sequence number tracking over unbounded sequence numbers: the stack of gaps in the seen
    sequence space that src/qofseq.c keeps in eight cells of 32-bit serial numbers (section
    3.3 of RFC 793).  SeqTracker.dfy proves that the 32-bit code computes exactly this. */
module SeqSpec {

  const GAPS := 8

  /** A missing range [a, b). */
  datatype Gap = Gap(a: int, b: int)

  /** Live gaps from highest to lowest, next expected number, octets given up as lost. */
  datatype Track = Track(nsn: int, gaps: seq<Gap>, seqlost: nat, rtx: nat)

  /** Gaps are non-empty, strictly descending and separated, all below n. */
  ghost predicate Stack(gs: seq<Gap>, n: int) {
    && |gs| <= GAPS
    && (forall i :: 0 <= i < |gs| ==> gs[i].a < gs[i].b < n)
    && (forall i, j :: 0 <= i < j < |gs| ==> gs[j].b < gs[i].a)
  }

  function Seek(gs: seq<Gap>, a: int): (i: nat)
    ensures i <= |gs|
    ensures forall j :: 0 <= j < i ==> a < gs[j].a
    ensures i < |gs| ==> gs[i].a <= a
  {
    if gs == [] then 0
    else if a < gs[0].a then 1 + Seek(gs[1..], a)
    else 0
  }

  function Truncate(gs: seq<Gap>): seq<Gap> {
    if |gs| <= GAPS then gs else gs[..GAPS]
  }

  /** Octets given up when a cell is inserted into a full stack. */
  function Evicted(gs: seq<Gap>): nat
    requires forall i :: 0 <= i < |gs| ==> gs[i].a < gs[i].b
  {
    if |gs| == GAPS then gs[GAPS - 1].b - gs[GAPS - 1].a else 0
  }

  datatype Filled = Filled(gaps: seq<Gap>, rtxoct: nat, lost: nat)

  /** What is left of gap g when [a, e) inside it is filled: the part above, the part below. */
  function Rest(g: Gap, a: int, e: int): seq<Gap> {
    (if e < g.b then [Gap(e, g.b)] else []) + (if g.a < a then [Gap(g.a, a)] else [])
  }

  /** What a segment [a, b) that starts below nsn does to the stack. */
  function Fill(gs: seq<Gap>, a: int, b: int): Filled
    requires a < b && forall i :: 0 <= i < |gs| ==> gs[i].a < gs[i].b
  {
    var i := Seek(gs, a);
    if i == |gs| || a > gs[i].b then Filled(gs, b - a, 0)
    else
      var g := gs[i];
      var e := if b > g.b then g.b else b;
      var rest := Rest(g, a, e);
      if |rest| == 2 && i == GAPS - 1 then Filled(gs[i := Gap(b, g.b)], 0, g.b - g.a)
      else Filled(Truncate(gs[..i] + rest + gs[i + 1..]), b - e, if |rest| == 2 then Evicted(gs) else 0)
  }

  /** The segment falls strictly inside the lowest cell of a full stack, which leaves no
      cell for the lower half. */
  predicate LastCellSplit(gs: seq<Gap>, a: int, b: int) {
    |gs| >= GAPS && Seek(gs, a) == GAPS - 1 && gs[GAPS - 1].a < a && b < gs[GAPS - 1].b
  }

  function Segment(t: Track, s: int, oct: nat): Track
    requires forall i :: 0 <= i < |t.gaps| ==> t.gaps[i].a < t.gaps[i].b
  {
    if oct == 0 then t
    else if s < t.nsn then
      var f := Fill(t.gaps, s, s + oct);
      t.(gaps := f.gaps, seqlost := t.seqlost + f.lost, rtx := t.rtx + (if f.rtxoct > 0 then 1 else 0))
    else if s == t.nsn then t.(nsn := s + oct)
    else Track(s + oct, Truncate([Gap(t.nsn, s)] + t.gaps), t.seqlost + Evicted(t.gaps), t.rtx)
  }

  function First(s: int, oct: nat, syn: bool): Track {
    Track(s + oct + (if syn then 1 else 0), [], 0, 0)
  }

  // ---- the stack stays well formed ----

  lemma FillStack(gs: seq<Gap>, n: int, a: int, b: int)
    requires Stack(gs, n) && a < b
    ensures Stack(Fill(gs, a, b).gaps, n)
  {
    var i := Seek(gs, a);
    if i < |gs| && a <= gs[i].b {
      hide Truncate;
      var g := gs[i];
      var e := if b > g.b then g.b else b;
      RestStack(g, n, a, e);
      ReplaceStack(gs, n, i, Rest(g, a, e));
    }
  }

  lemma RestStack(g: Gap, n: int, a: int, e: int)
    requires g.a <= a <= e <= g.b < n && g.a < g.b && (e < g.b ==> a < e)
    ensures |Rest(g, a, e)| <= 2
    ensures forall j :: 0 <= j < |Rest(g, a, e)| ==> g.a <= Rest(g, a, e)[j].a < Rest(g, a, e)[j].b <= g.b
    ensures |Rest(g, a, e)| == 2 ==> Rest(g, a, e)[1].b < Rest(g, a, e)[0].a
  {
  }

  /** A cell may be replaced by up to two cells inside it. */
  lemma ReplaceStack(gs: seq<Gap>, n: int, i: nat, mid: seq<Gap>)
    requires Stack(gs, n) && i < |gs| && |mid| <= 2
    requires forall j :: 0 <= j < |mid| ==> gs[i].a <= mid[j].a < mid[j].b <= gs[i].b
    requires |mid| == 2 ==> mid[1].b < mid[0].a
    ensures Stack(Truncate(gs[..i] + mid + gs[i + 1..]), n)
  {
    var r := gs[..i] + mid + gs[i + 1..];
    forall j, k | 0 <= j < k < |r|
      ensures r[k].b < r[j].a
    {
      ReplacedCell(gs, n, i, mid, j);
      ReplacedCell(gs, n, i, mid, k);
    }
    forall j | 0 <= j < |r|
      ensures r[j].a < r[j].b < n
    {
      ReplacedCell(gs, n, i, mid, j);
    }
  }

  /** Where the cells of a stack with one cell replaced come from. */
  lemma ReplacedCell(gs: seq<Gap>, n: int, i: nat, mid: seq<Gap>, j: nat)
    requires Stack(gs, n) && i < |gs| && j < |gs[..i] + mid + gs[i + 1..]|
    ensures
      var x := (gs[..i] + mid + gs[i + 1..])[j];
      if j < i then x == gs[j] && gs[i].b < x.a
      else if j < i + |mid| then x == mid[j - i]
      else x == gs[j - |mid| + 1] && x.b < gs[i].a
  {
  }

  lemma PushStack(gs: seq<Gap>, n: int, s: int, n': int)
    requires Stack(gs, n) && n < s < n'
    ensures Stack(Truncate([Gap(n, s)] + gs), n')
  {
    var r := [Gap(n, s)] + gs;
    forall i, j | 0 <= i < j < |r|
      ensures r[j].b < r[i].a
    {
      assert r[j] == gs[j - 1];
      assert i > 0 ==> r[i] == gs[i - 1];
    }
  }

  /** Every segment keeps the stack well formed and below the next expected number. */
  lemma SegmentStack(t: Track, s: int, oct: nat)
    requires Stack(t.gaps, t.nsn)
    ensures Stack(Segment(t, s, oct).gaps, Segment(t, s, oct).nsn)
  {
    hide Fill, Truncate;
    if oct > 0 {
      if s < t.nsn {
        FillStack(t.gaps, t.nsn, s, s + oct);
      } else if s > t.nsn {
        PushStack(t.gaps, t.nsn, s, s + oct);
      }
    }
  }

  /** A segment beyond nsn gives a gap up, the lowest, exactly when eight are already tracked. */
  lemma SkipGivesUp(t: Track, s: int, oct: nat)
    requires Stack(t.gaps, t.nsn) && s > t.nsn && oct > 0
    ensures
      var t' := Segment(t, s, oct);
      && t'.gaps == [Gap(t.nsn, s)] + (if |t.gaps| == 8 then t.gaps[..7] else t.gaps)
      && t'.seqlost == t.seqlost + if |t.gaps| == 8 then t.gaps[7].b - t.gaps[7].a else 0
  {
  }

  // ---- octet ledger ----

  function Size(gs: seq<Gap>): int {
    if gs == [] then 0 else Size(gs[..|gs| - 1]) + gs[|gs| - 1].b - gs[|gs| - 1].a
  }

  lemma {:induction false} SizeAppend(x: seq<Gap>, y: seq<Gap>)
    ensures Size(x + y) == Size(x) + Size(y)
    decreases |y|
  {
    if y == [] {
      assert x + y == x;
    } else {
      SizeAppend(x, y[..|y| - 1]);
      assert (x + y)[..|x + y| - 1] == x + y[..|y| - 1];
    }
  }

  lemma SizeOne(g: Gap)
    ensures Size([g]) == g.b - g.a && Size([]) == 0
  {
    assert [g][..0] == [];
  }

  /** Replacing one cell by others. */
  lemma SizeReplace(gs: seq<Gap>, i: nat, mid: seq<Gap>)
    requires i < |gs|
    ensures Size(gs[..i] + mid + gs[i + 1..]) == Size(gs) - (gs[i].b - gs[i].a) + Size(mid)
  {
    SizeAppend(gs[..i] + mid, gs[i + 1..]);
    SizeAppend(gs[..i], mid);
    SizeAppend(gs[..i], [gs[i]]);
    SizeAppend(gs[..i] + [gs[i]], gs[i + 1..]);
    SizeOne(gs[i]);
    assert gs == gs[..i] + [gs[i]] + gs[i + 1..];
  }

  lemma SizeTruncate(gs: seq<Gap>)
    requires |gs| <= GAPS + 1
    ensures Size(Truncate(gs)) == Size(gs) - if |gs| == GAPS + 1 then gs[GAPS].b - gs[GAPS].a else 0
  {
    if |gs| == GAPS + 1 {
      SizeAppend(gs[..GAPS], [gs[GAPS]]);
      SizeOne(gs[GAPS]);
      assert gs == gs[..GAPS] + [gs[GAPS]];
    }
  }

  /** Octets of a below-nsn segment that are not counted as retransmitted. */
  function NewOctets(gs: seq<Gap>, a: int, b: int): int
    requires a < b && forall i :: 0 <= i < |gs| ==> gs[i].a < gs[i].b
  {
    b - a - Fill(gs, a, b).rtxoct
  }

  /** Tracked plus lost octets shrink by the octets not counted as retransmitted, except that
      a split of the last cell counts the upper rest of the gap a second time. */
  lemma FillSizes(gs: seq<Gap>, n: int, a: int, b: int)
    requires Stack(gs, n) && a < b
    ensures
      var f := Fill(gs, a, b);
      && 0 <= f.rtxoct <= b - a
      && Size(f.gaps) + f.lost == Size(gs) - NewOctets(gs, a, b)
           + (if LastCellSplit(gs, a, b) then gs[GAPS - 1].b - a else 0)
  {
    hide Size, Truncate;
    var i := Seek(gs, a);
    if i < |gs| && a <= gs[i].b {
      var g := gs[i];
      var e := if b > g.b then g.b else b;
      var rest := Rest(g, a, e);
      RestSize(g, a, e);
      if |rest| == 2 && i == GAPS - 1 {
        SizeReplace(gs, i, [Gap(b, g.b)]);
        SizeOne(Gap(b, g.b));
        assert gs[i := Gap(b, g.b)] == gs[..i] + [Gap(b, g.b)] + gs[i + 1..];
      } else {
        ReplaceSizes(gs, i, rest);
      }
    }
  }

  lemma RestSize(g: Gap, a: int, e: int)
    requires g.a <= a <= e <= g.b
    ensures Size(Rest(g, a, e)) == (g.b - e) + (a - g.a)
  {
    SizeOne(Gap(e, g.b));
    SizeOne(Gap(g.a, a));
    SizeAppend(if e < g.b then [Gap(e, g.b)] else [], if g.a < a then [Gap(g.a, a)] else []);
  }

  lemma ReplaceSizes(gs: seq<Gap>, i: nat, mid: seq<Gap>)
    requires |gs| <= GAPS && i < |gs| && |mid| <= 2 && (|mid| == 2 ==> i < GAPS - 1)
    requires forall j :: 0 <= j < |gs| ==> gs[j].a < gs[j].b
    ensures Size(Truncate(gs[..i] + mid + gs[i + 1..])) + (if |mid| == 2 then Evicted(gs) else 0)
         == Size(gs) - (gs[i].b - gs[i].a) + Size(mid)
  {
    var r := gs[..i] + mid + gs[i + 1..];
    SizeReplace(gs, i, mid);
    SizeTruncate(r);
    assert |gs| == GAPS && |mid| == 2 ==> r[GAPS] == gs[GAPS - 1];
  }

  /** What a segment changes: nsn advances by the octets skipped and sent; tracked plus lost
      octets grow by the octets skipped or shrink by the octets filled. */
  lemma SegmentSizes(t: Track, s: int, oct: nat)
    requires Stack(t.gaps, t.nsn) && oct > 0
    ensures
      var t' := Segment(t, s, oct);
      if s >= t.nsn then
        && t'.nsn == t.nsn + (s - t.nsn) + oct
        && Size(t'.gaps) + t'.seqlost == Size(t.gaps) + t.seqlost + (s - t.nsn)
        && t'.rtx == t.rtx
      else
        && t'.nsn == t.nsn
        && Size(t'.gaps) + t'.seqlost == Size(t.gaps) + t.seqlost - NewOctets(t.gaps, s, s + oct)
             + (if LastCellSplit(t.gaps, s, s + oct) then t.gaps[GAPS - 1].b - s else 0)
        && t'.rtx == t.rtx + (if Fill(t.gaps, s, s + oct).rtxoct > 0 then 1 else 0)
  {
    hide Fill, Size, Truncate, LastCellSplit;
    if s < t.nsn {
      FillSizes(t.gaps, t.nsn, s, s + oct);
    } else if s > t.nsn {
      var g := Gap(t.nsn, s);
      SizeAppend([g], t.gaps);
      SizeOne(g);
      SizeTruncate([g] + t.gaps);
    }
  }
}
