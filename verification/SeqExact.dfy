/** Loss exactly: what qofseq counts, octet by octet, over every run of segments. */
module SeqExact {
  import opened SeqSpec
  import opened SeqLoss

  // ---- the first segment and runs without loss ----

  /** After the first segment nsn is the first number that has not been seen. */
  lemma FirstIsSeen(first: Seg, syn: bool, x: int)
    ensures
      var n := Run(first, syn, []).nsn;
      && first.s <= n && !Seen(first, syn, [], n)
      && (first.s <= x < n ==> Seen(first, syn, [], x))
  {
  }

  /** The number after everything sent, if nothing is skipped or repeated. */
  function Sent(first: Seg, syn: bool, es: seq<Event>): int {
    if es == [] then first.s + first.oct + (if syn then 1 else 0)
    else Sent(first, syn, es[..|es| - 1]) + (if es[|es| - 1].Arrive? then es[|es| - 1].g.oct else 0)
  }

  /** Every segment starts where the one before ended. */
  predicate Consecutive(first: Seg, syn: bool, es: seq<Event>) {
    es != [] ==>
      var es', e := es[..|es| - 1], es[|es| - 1];
      Consecutive(first, syn, es') && (e.Arrive? ==> e.g.s == Sent(first, syn, es'))
  }

  /** No segment starts beyond nsn. */
  predicate NeverSkips(first: Seg, syn: bool, es: seq<Event>) {
    es != [] ==>
      var es', e := es[..|es| - 1], es[|es| - 1];
      NeverSkips(first, syn, es') && (e.Arrive? && e.g.oct > 0 ==> e.g.s <= Run(first, syn, es').nsn)
  }

  /** A run in which no segment starts beyond nsn counts no loss. */
  lemma {:induction false} NothingSkipped(first: Seg, syn: bool, es: seq<Event>)
    requires NeverSkips(first, syn, es)
    ensures Run(first, syn, es).gaps == [] && CountLost(Run(first, syn, es)) == 0
  {
    if es != [] {
      NothingSkipped(first, syn, es[..|es| - 1]);
    }
  }

  /** A connection whose segments arrive in sequence, its SYN counting one, is reported without
      loss, and nsn is the number after everything sent. */
  lemma {:induction false} InSequence(first: Seg, syn: bool, es: seq<Event>)
    requires Consecutive(first, syn, es)
    ensures NeverSkips(first, syn, es) && Run(first, syn, es).nsn == Sent(first, syn, es)
    ensures CountLost(Run(first, syn, es)) == 0
  {
    if es != [] {
      InSequence(first, syn, es[..|es| - 1]);
    }
    NothingSkipped(first, syn, es);
  }

  // ---- which octets are counted ----

  /** Event e accounts for octet x: it carries x, and it advances nsn or x is in a gap that does
      not start above the segment. */
  ghost predicate Credits(t: Track, e: Event, x: int) {
    && Carries(e, x)
    && (e.g.s >= t.nsn || exists j :: 0 <= j < |t.gaps| && t.gaps[j].a <= e.g.s && x < t.gaps[j].b)
  }

  ghost predicate Credited(first: Seg, syn: bool, es: seq<Event>, x: int) {
    if es == [] then In(first, x) || (syn && x == first.s + first.oct)
    else
      var es', e := es[..|es| - 1], es[|es| - 1];
      Credited(first, syn, es', x) || Credits(Run(first, syn, es'), e, x)
  }

  /** Octets below nsn that no segment accounted for. */
  ghost function Charged(first: Seg, syn: bool, es: seq<Event>): set<int> {
    set x | x in Range(first.s, Run(first, syn, es).nsn) && !Credited(first, syn, es, x)
  }

  /** A segment below nsn accounts for the octets it takes out of a gap. */
  lemma CreditsIsRecovered(t: Track, g: Seg, x: int)
    requires Stack(t.gaps, t.nsn) && g.oct > 0 && g.s < t.nsn
    ensures Credits(t, Arrive(g), x) <==> x in Recovered(t.gaps, g.s, g.s + g.oct)
  {
    hide Fill, Recovered, InGap;
    var i := Seek(t.gaps, g.s);
    RecoveredIsHit(t.gaps, t.nsn, g.s, g.s + g.oct);
    if Credits(t, Arrive(g), x) {
      var j :| 0 <= j < |t.gaps| && t.gaps[j].a <= g.s && x < t.gaps[j].b;
      assert i == j;
    }
  }

  lemma {:induction false} CreditedBelow(first: Seg, syn: bool, es: seq<Event>, x: int)
    requires Credited(first, syn, es, x)
    ensures x < Run(first, syn, es).nsn
  {
    if es != [] {
      hide Fill;
      var es', e := es[..|es| - 1], es[|es| - 1];
      var t := Run(first, syn, es');
      if Credited(first, syn, es', x) {
        CreditedBelow(first, syn, es', x);
      }
    }
  }

  /** An octet in a gap has not been accounted for. */
  lemma {:induction false} GapIsCharged(first: Seg, syn: bool, es: seq<Event>, x: int)
    requires InGap(Run(first, syn, es).gaps, x)
    ensures x in Charged(first, syn, es)
  {
    if es != [] {
      hide Fill, InGap, Credits, Credited;
      var es', e := es[..|es| - 1], es[|es| - 1];
      var t := Run(first, syn, es');
      GapStep(t, e, x);
      if InGap(t.gaps, x) {
        GapIsCharged(first, syn, es', x);
      } else if Credited(first, syn, es', x) {
        CreditedBelow(first, syn, es', x);
      }
      FromFirst(first, syn, es');
    }
  }

  lemma {:induction false} FromFirst(first: Seg, syn: bool, es: seq<Event>)
    ensures first.s <= Run(first, syn, es).nsn
  {
    if es != [] {
      hide Fill;
      FromFirst(first, syn, es[..|es| - 1]);
    }
  }

  /** Where an octet that is in a gap after a step comes from. */
  lemma GapStep(t: Track, e: Event, x: int)
    requires Stack(t.gaps, t.nsn) && InGap(Step(t, e).gaps, x)
    ensures InGap(t.gaps, x) || t.nsn <= x
    ensures x < Step(t, e).nsn && !Credits(t, e, x)
  {
    hide Fill;
    var r := Step(t, e).gaps;
    var i :| 0 <= i < |r| && r[i].a <= x < r[i].b;
    match e
    case Tally =>
    case Arrive(g) =>
      if g.oct > 0 && g.s < t.nsn {
        FillKeeps(t.gaps, t.nsn, g.s, g.s + g.oct, x);
        CreditsIsRecovered(t, g, x);
      } else if g.oct > 0 && g.s > t.nsn {
        PushedGap(t.gaps, Gap(t.nsn, g.s), i);
      }
  }

  lemma PushedGap(gs: seq<Gap>, g: Gap, i: nat)
    requires i < |Truncate([g] + gs)|
    ensures Truncate([g] + gs)[i] == g || (0 < i <= |gs| && Truncate([g] + gs)[i] == gs[i - 1])
  {
  }

  /** One segment beyond nsn charges what it skips. */
  lemma AdvanceCharges(first: Seg, syn: bool, es: seq<Event>)
    requires es != [] && es[|es| - 1].Arrive? && es[|es| - 1].g.oct > 0
    requires es[|es| - 1].g.s >= Run(first, syn, es[..|es| - 1]).nsn
    ensures
      var es', g := es[..|es| - 1], es[|es| - 1].g;
      Charged(first, syn, es) == Charged(first, syn, es') + Range(Run(first, syn, es').nsn, g.s)
  {
    hide Run, Credited, Credits, Charged;
    var es', e := es[..|es| - 1], es[|es| - 1];
    var t := Run(first, syn, es');
    forall x
      ensures x in Charged(first, syn, es) <==> x in Charged(first, syn, es') + Range(t.nsn, e.g.s)
    {
      if Credited(first, syn, es', x) {
        CreditedBelow(first, syn, es', x);
      }
      FromFirst(first, syn, es');
      AdvanceCredits(t, e, x);
      CreditedStep(first, syn, es, x);
      ChargedIn(first, syn, es, x);
      ChargedIn(first, syn, es', x);
    }
  }

  lemma AdvanceCredits(t: Track, e: Event, x: int)
    requires Stack(t.gaps, t.nsn) && e.Arrive? && e.g.oct > 0 && e.g.s >= t.nsn
    ensures Credits(t, e, x) <==> e.g.s <= x < e.g.s + e.g.oct
    ensures Step(t, e).nsn == e.g.s + e.g.oct
  {
  }

  lemma ChargedIn(first: Seg, syn: bool, es: seq<Event>, x: int)
    ensures x in Charged(first, syn, es) <==> first.s <= x < Run(first, syn, es).nsn && !Credited(first, syn, es, x)
    ensures es != [] ==> Run(first, syn, es) == Step(Run(first, syn, es[..|es| - 1]), es[|es| - 1])
  {
    hide Credited, Step;
  }

  lemma CreditedStep(first: Seg, syn: bool, es: seq<Event>, x: int)
    requires es != []
    ensures Credited(first, syn, es, x)
       <==> Credited(first, syn, es[..|es| - 1], x) || Credits(Run(first, syn, es[..|es| - 1]), es[|es| - 1], x)
  {
    hide Credits, Run;
  }

  /** One segment below nsn discharges what it takes out of a gap. */
  lemma FillDischarges(first: Seg, syn: bool, es: seq<Event>)
    requires es != [] && es[|es| - 1].Arrive? && es[|es| - 1].g.oct > 0
    requires es[|es| - 1].g.s < Run(first, syn, es[..|es| - 1]).nsn
    ensures
      var es', g := es[..|es| - 1], es[|es| - 1].g;
      var r := Recovered(Run(first, syn, es').gaps, g.s, g.s + g.oct);
      r <= Charged(first, syn, es') && Charged(first, syn, es) == Charged(first, syn, es') - r
  {
    hide Run, Fill, Credited, Credits, InGap, Charged;
    var es', g := es[..|es| - 1], es[|es| - 1].g;
    var t := Run(first, syn, es');
    var r := Recovered(t.gaps, g.s, g.s + g.oct);
    forall x
      ensures x in r ==> x in Charged(first, syn, es')
      ensures x in Charged(first, syn, es) <==> x in Charged(first, syn, es') - r
    {
      if x in r {
        GapIsCharged(first, syn, es', x);
      }
      CreditedStep(first, syn, es, x);
      CreditsIsRecovered(t, g, x);
      ChargedIn(first, syn, es, x);
      ChargedIn(first, syn, es', x);
    }
  }

  lemma OtherwiseSame(first: Seg, syn: bool, es: seq<Event>)
    requires es != [] && (es[|es| - 1].Tally? || es[|es| - 1].g.oct == 0)
    ensures Charged(first, syn, es) == Charged(first, syn, es[..|es| - 1])
  {
    hide Credited;
    forall x
      ensures x in Charged(first, syn, es) <==> x in Charged(first, syn, es[..|es| - 1])
    {
      CreditedStep(first, syn, es, x);
    }
  }

  /** The octets not accounted for are those skipped less those recovered. */
  lemma {:induction false} ChargedSize(first: Seg, syn: bool, es: seq<Event>)
    ensures |Charged(first, syn, es)| == Skipped(first, syn, es) - SeqLoss.Filled(first, syn, es)
  {
    hide Run, Charged, Recovered;
    if es == [] {
      NoneCharged(first, syn);
    } else {
      var es', e := es[..|es| - 1], es[|es| - 1];
      var t := Run(first, syn, es');
      ChargedSize(first, syn, es');
      if e.Tally? || e.g.oct == 0 {
        OtherwiseSame(first, syn, es);
      } else if e.g.s >= t.nsn {
        AdvanceCharges(first, syn, es);
        ChargedBelow(first, syn, es');
        UnionOfApart(Charged(first, syn, es'), Range(t.nsn, e.g.s));
      } else {
        FillDischarges(first, syn, es);
      }
    }
  }

  lemma NoneCharged(first: Seg, syn: bool)
    ensures Charged(first, syn, []) == {}
  {
  }

  lemma ChargedBelow(first: Seg, syn: bool, es: seq<Event>)
    ensures forall x :: x in Charged(first, syn, es) ==> first.s <= x < Run(first, syn, es).nsn
  {
  }

  lemma UnionOfApart(a: set<int>, b: set<int>)
    requires a !! b
    ensures |a + b| == |a| + |b|
  {
  }

  /** Octets that arrived, but only in segments that did not account for them: beyond nsn in a
      segment that started below it, in a gap that started inside the segment, or after the octet
      had been given up. */
  ghost function Uncredited(first: Seg, syn: bool, es: seq<Event>): set<int> {
    set x | x in Charged(first, syn, es) && Seen(first, syn, es, x)
  }

  lemma {:induction false} CreditedIsSeen(first: Seg, syn: bool, es: seq<Event>, x: int)
    requires Credited(first, syn, es, x)
    ensures Seen(first, syn, es, x)
  {
    if es != [] {
      hide Run;
      var es', e := es[..|es| - 1], es[|es| - 1];
      if Credited(first, syn, es', x) {
        CreditedIsSeen(first, syn, es', x);
        if !Seen(first, syn, es, x) {
          SeenBefore(first, syn, es, x);
        }
      } else {
        assert Carries(es[|es| - 1], x);
      }
    }
  }

  /** In every run the loss counted is exactly the octets that never arrived, plus those that
      arrived without being accounted for, plus what splits of the lowest cell count twice. */
  lemma LossIsExact(first: Seg, syn: bool, es: seq<Event>)
    ensures CountLost(Run(first, syn, es))
         == |Unseen(first, syn, es)| + |Uncredited(first, syn, es)| + Excess(first, syn, es)
  {
    hide Run, CountLost, Credited, Seen, Excess;
    RunLedger(first, syn, es);
    ChargedSize(first, syn, es);
    var c, u, v := Charged(first, syn, es), Unseen(first, syn, es), Uncredited(first, syn, es);
    forall x
      ensures x in c <==> x in u + v
    {
      if Credited(first, syn, es, x) {
        CreditedIsSeen(first, syn, es, x);
      }
    }
    assert c == u + v;
    UnionOfApart(u, v);
  }
}
