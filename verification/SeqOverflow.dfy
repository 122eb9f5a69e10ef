/** A run within the window after which the 32-bit loss count has wrapped: thirty-two times a
    segment of one octet arrives 2^27 octets beyond the last one. */
module SeqOverflow {
  import opened SeqSpec
  import opened SeqCells
  import opened SeqLoss
  import opened SeqTracker

  const SKIP := 0x800_0000

  const Start := Seg(0, 1)

  /** The next expected number after k such segments. */
  function Next(k: nat): nat {
    1 + k * (SKIP + 1)
  }

  function Skips(k: nat): (es: seq<Event>)
    ensures |es| == k
  {
    if k == 0 then [] else Skips(k - 1) + [Arrive(Seg(Next(k - 1) + SKIP, 1))]
  }

  /** The gap left by the j-th segment. */
  function Skipped(j: nat): Gap {
    Gap(Next(j), Next(j) + SKIP)
  }

  lemma OneMore(k: nat)
    requires k > 0
    ensures
      var t := Run(Start, false, Skips(k - 1));
      Run(Start, false, Skips(k)) == Segment(t, Next(k - 1) + SKIP, 1)
  {
    hide Segment;
    assert Skips(k)[..k - 1] == Skips(k - 1);
  }

  /** The last eight gaps left by k of them. */
  ghost predicate LastGaps(gs: seq<Gap>, k: nat) {
    && |gs| == (if k < GAPS then k else GAPS)
    && forall i :: 0 <= i < |gs| ==> gs[i] == Skipped(k - 1 - i)
  }

  lemma PushSkipped(gs: seq<Gap>, k: nat)
    requires LastGaps(gs, k)
    ensures LastGaps(Truncate([Skipped(k)] + gs), k + 1)
  {
    hide Skipped;
  }

  lemma SkipOne(t: Track, k: nat)
    requires Stack(t.gaps, t.nsn) && t.nsn == Next(k) && CountLost(t) == k * SKIP && LastGaps(t.gaps, k)
    ensures
      var t' := Segment(t, Next(k) + SKIP, 1);
      t'.nsn == Next(k + 1) && CountLost(t') == (k + 1) * SKIP && LastGaps(t'.gaps, k + 1)
  {
    SegmentSizes(t, Next(k) + SKIP, 1);
    PushSkipped(t.gaps, k);
    hide Size, LastGaps, Truncate, Evicted, Fill;
  }

  /** The state after k of them: all the octets skipped are counted, the last eight gaps live. */
  lemma {:induction false} AfterSkips(k: nat)
    ensures
      var t := Run(Start, false, Skips(k));
      t.nsn == Next(k) && CountLost(t) == k * SKIP && LastGaps(t.gaps, k)
  {
    hide Run, Skips, LastGaps, CountLost, Next, Segment;
    if k == 0 {
      BeforeSkips();
    } else {
      AfterSkips(k - 1);
      OneMore(k);
      SkipOne(Run(Start, false, Skips(k - 1)), k - 1);
    }
  }

  lemma BeforeSkips()
    ensures
      var t := Run(Start, false, Skips(0));
      t.nsn == Next(0) && CountLost(t) == 0 && LastGaps(t.gaps, 0)
  {
  }

  /** Every segment of the run is within the window. */
  lemma SkipsInWindow(k: nat)
    ensures SegmentInWindow(Run(Start, false, Skips(k)), Next(k) + SKIP, 1)
  {
    hide Run, LastGaps, CountLost;
    AfterSkips(k);
    GapsInWindow(Run(Start, false, Skips(k)).gaps, k);
  }

  lemma GapsInWindow(gs: seq<Gap>, k: nat)
    requires LastGaps(gs, k)
    ensures InWindow(gs, Next(k), Next(k)) && InWindow(gs, Next(k) + SKIP, Next(k) + SKIP + 1)
  {
  }

  // ---- the octets that never arrive ----

  /** The octets that do arrive. */
  function Arrived(k: nat): (r: set<int>)
    ensures |r| <= k + 1
  {
    if k == 0 then {0} else Arrived(k - 1) + {Next(k - 1) + SKIP}
  }

  lemma {:induction false} ArrivedIsSeen(k: nat, x: int)
    ensures Seen(Start, false, Skips(k), x) ==> x in Arrived(k)
  {
    if k > 0 {
      ArrivedIsSeen(k - 1, x);
      var es := Skips(k);
      if Seen(Start, false, es, x) && !In(Start, x) {
        var i :| 0 <= i < |es| && Carries(es[i], x);
        assert i < k - 1 ==> es[i] == Skips(k - 1)[i];
      }
    }
  }

  lemma ManyUnseen(k: nat)
    ensures |Unseen(Start, false, Skips(k))| >= k * SKIP
  {
    AfterSkips(k);
    hide Run, Seen, Skips;
    var u, r := Unseen(Start, false, Skips(k)), Range(0, Next(k));
    forall x | x in r
      ensures x in u + Arrived(k)
    {
      ArrivedIsSeen(k, x);
    }
    SubsetSize(r, u + Arrived(k));
    UnionSize(u, Arrived(k));
  }

  /** After thirty-two of them the code reports no loss although 2^32 octets never arrived. */
  lemma CountWraps()
    ensures
      var t := Run(Start, false, Skips(32));
      && CountLost(t) == TWO32 && Wrap(CountLost(t)) == 0
      && |Unseen(Start, false, Skips(32))| >= TWO32
  {
    hide Run, Unseen;
    AfterSkips(32);
    ManyUnseen(32);
  }
}
