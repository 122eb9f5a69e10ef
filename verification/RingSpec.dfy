/** The packet ring (src/ring.c) in element numbers: who was handed which element and has not
    released it yet, and when the ring's counters still protect those elements. */
module RingSpec {

  // ---- slots ----

  /** One step of the head or the tail pointer. */
  function Advance(s: nat, cap: nat): (r: nat)
    requires s < cap
    ensures r < cap
  {
    if s + 1 > cap - 1 then 0 else s + 1
  }

  /** The slot of element p. */
  function Slot(p: nat, cap: nat): (s: nat)
    requires cap > 0
    ensures s < cap
  {
    if p == 0 then 0 else Advance(Slot(p - 1, cap), cap)
  }

  lemma NextSlot(p: nat, cap: nat)
    requires cap > 0
    ensures Slot(p + 1, cap) == Advance(Slot(p, cap), cap)
  {
  }

  lemma {:induction false} SlotAfter(p: nat, d: nat, cap: nat)
    requires cap > 0 && d <= cap
    ensures Slot(p + d, cap) == if Slot(p, cap) + d < cap then Slot(p, cap) + d else Slot(p, cap) + d - cap
  {
    if d > 0 {
      SlotAfter(p, d - 1, cap);
    }
  }

  /** Elements less than a capacity apart have different slots; a capacity apart, the same. */
  lemma SlotsDiffer(p: nat, q: nat, cap: nat)
    requires cap > 0 && p <= q <= p + cap
    ensures Slot(p, cap) == Slot(q, cap) <==> p == q || q == p + cap
  {
    SlotAfter(p, q - p, cap);
  }

  /** In numbers: slots are element numbers modulo the capacity. */
  lemma {:induction false} SlotIsModulo(p: nat, cap: nat)
    requires cap > 0
    ensures exists q: nat :: p == cap * q + Slot(p, cap)
  {
    if p == 0 {
      assert p == cap * 0 + Slot(p, cap);
    } else {
      SlotIsModulo(p - 1, cap);
      var q: nat :| p - 1 == cap * q + Slot(p - 1, cap);
      if Slot(p, cap) == 0 {
        assert p == cap * (q + 1) + Slot(p, cap);
      } else {
        assert p == cap * q + Slot(p, cap);
      }
    }
  }

  // ---- steps ----

  /** How many elements were added and removed, and the numbers of those that the producer and
      the consumer were handed by a wait and have not released. The program keeps only how many
      there are of each (hrsv and trsv). */
  datatype State = State(cap: nat, added: nat, taken: nat, mine: seq<nat>, theirs: seq<nat>) {
    function Count(): int { added - taken }
    function Hrsv(): nat { |mine| }
    function Trsv(): nat { |theirs| }

    predicate Full() { Count() >= cap - Trsv() }
    predicate Dry() { Count() <= Hrsv() }
    /** A forced element pushes the oldest one out. */
    predicate Crowded() { Count() + 1 >= cap - Trsv() }
  }

  datatype Op = NextHead | ForceHead | NextTail | WaitHead | WaitTail | ReleaseHead(n: nat) | ReleaseTail(n: nat)

  /** Releases are in the order of the waits. */
  function Released(held: seq<nat>, n: nat): seq<nat> {
    if n > |held| then [] else held[n..]
  }

  function Step(s: State, op: Op): (t: State)
    ensures t.cap == s.cap
  {
    match op
    case NextHead => if s.Full() then s else s.(added := s.added + 1)
    case ForceHead => s.(added := s.added + 1, taken := if s.Crowded() then s.taken + 1 else s.taken)
    case NextTail => if s.Dry() then s else s.(taken := s.taken + 1)
    case WaitHead => if s.Full() then s else s.(added := s.added + 1, mine := s.mine + [s.added])
    case WaitTail => if s.Dry() then s else s.(taken := s.taken + 1, theirs := s.theirs + [s.taken])
    case ReleaseHead(n) => s.(mine := Released(s.mine, n))
    case ReleaseTail(n) => s.(theirs := Released(s.theirs, n))
  }

  ghost predicate Ascending(held: seq<nat>, bound: nat) {
    && (forall i :: 0 <= i < |held| ==> held[i] < bound)
    && (forall i, j :: 0 <= i < j < |held| ==> held[i] < held[j])
  }

  /** What every run keeps: hrsv <= count and count + trsv <= cap. */
  ghost predicate Inv(s: State) {
    && s.cap > 0 && s.taken <= s.added
    && Ascending(s.mine, s.added) && Ascending(s.theirs, s.taken)
    && s.Hrsv() <= s.Count() && s.Count() + s.Trsv() <= s.cap
  }

  lemma StepInv(s: State, op: Op)
    requires Inv(s)
    ensures Inv(Step(s, op))
  {
  }

  /** A plain or a reserving add is refused exactly when queued elements and slots held by the
      consumer fill the ring, a removal exactly when the producer holds all that is queued. */
  lemma WhenRefused(s: State)
    requires Inv(s)
    ensures Step(s, NextHead) == s <==> s.added - s.taken + |s.theirs| == s.cap
    ensures Step(s, WaitHead) == s <==> s.added - s.taken + |s.theirs| == s.cap
    ensures Step(s, NextTail) == s <==> s.added - s.taken == |s.mine|
    ensures Step(s, WaitTail) == s <==> s.added - s.taken == |s.mine|
  {
  }

  /** A forced add is never refused and never takes the last free slot: it drops the oldest element
      exactly when at most one slot was free. */
  lemma ForcedLeavesOne(s: State)
    requires Inv(s)
    ensures
      var t := Step(s, ForceHead);
      var free := s.cap - (s.added - s.taken) - |s.theirs|;
      && t.added == s.added + 1 && t.mine == s.mine && t.theirs == s.theirs
      && t.taken == s.taken + (if free <= 1 then 1 else 0)
      && t.cap - (t.added - t.taken) - |t.theirs| == (if free <= 1 then free else free - 1)
  {
  }

  /** A release gives back n reservations, or all there are, those made first; the newest stay. */
  lemma ReleasesOldest(s: State, n: nat)
    ensures
      var t, u := Step(s, ReleaseHead(n)), Step(s, ReleaseTail(n));
      && |t.mine| == (if n < |s.mine| then |s.mine| - n else 0)
      && |u.theirs| == (if n < |s.theirs| then |s.theirs| - n else 0)
      && (forall i :: 0 <= i < |t.mine| ==> t.mine[i] == s.mine[|s.mine| - |t.mine| + i])
      && (forall i :: 0 <= i < |u.theirs| ==> u.theirs[i] == s.theirs[|s.theirs| - |u.theirs| + i])
      && t == s.(mine := t.mine) && u == s.(theirs := u.theirs)
  {
  }

  function From(s: State, ops: seq<Op>): (t: State)
    ensures t.cap == s.cap
  {
    if ops == [] then s else Step(From(s, ops[..|ops| - 1]), ops[|ops| - 1])
  }

  function Empty(cap: nat): State {
    State(cap, 0, 0, [], [])
  }

  /** Every interleaving of calls keeps the counters in bounds. */
  lemma {:induction false} RunInv(cap: nat, ops: seq<Op>)
    requires cap > 0
    ensures Inv(From(Empty(cap), ops))
  {
    if ops != [] {
      RunInv(cap, ops[..|ops| - 1]);
      StepInv(From(Empty(cap), ops[..|ops| - 1]), ops[|ops| - 1]);
    }
  }

  // ---- who holds which slot ----

  ghost predicate Holds(held: seq<nat>, cap: nat, slot: nat)
    requires cap > 0
  {
    exists i :: 0 <= i < |held| && Slot(held[i], cap) == slot
  }

  /** No slot is held by both sides. */
  ghost predicate Apart(s: State)
    requires s.cap > 0
  {
    forall slot :: !(Holds(s.mine, s.cap, slot) && Holds(s.theirs, s.cap, slot))
  }

  /** The counters protect what is held: the consumer is kept out of the newest hrsv elements,
      the producer out of the slots of the last trsv elements removed. */
  ghost predicate Sheltered(s: State) {
    && (forall i :: 0 <= i < |s.mine| ==> s.mine[i] >= s.added - s.Hrsv())
    && (forall i :: 0 <= i < |s.theirs| ==> s.theirs[i] >= s.taken - s.Trsv())
  }

  /** A side whose held elements are all protected holds exactly the protected ones. */
  lemma {:induction false} ProtectedExactly(held: seq<nat>, bound: nat, i: nat)
    requires Ascending(held, bound) && i < |held|
    requires forall j :: 0 <= j < |held| ==> held[j] >= bound - |held|
    ensures held[i] == bound - |held| + i
  {
    AtLeast(held, bound - |held|, i);
    AtMost(held, bound, i);
  }

  lemma {:induction false} AtLeast(held: seq<nat>, lo: int, i: nat)
    requires i < |held| && held[0] >= lo && forall j, k :: 0 <= j < k < |held| ==> held[j] < held[k]
    ensures held[i] >= lo + i
  {
    if i > 0 {
      AtLeast(held, lo, i - 1);
    }
  }

  lemma {:induction false} AtMost(held: seq<nat>, bound: nat, i: nat)
    requires Ascending(held, bound) && i < |held|
    ensures held[i] <= bound - (|held| - i)
    decreases |held| - i
  {
    if i < |held| - 1 {
      AtMost(held, bound, i + 1);
    }
  }

  lemma Shelter(s: State)
    requires Inv(s) && Sheltered(s)
    ensures forall i :: 0 <= i < |s.mine| ==> s.mine[i] == s.added - s.Hrsv() + i
    ensures forall i :: 0 <= i < |s.theirs| ==> s.theirs[i] == s.taken - s.Trsv() + i
  {
    forall i | 0 <= i < |s.mine|
      ensures s.mine[i] == s.added - s.Hrsv() + i
    {
      ProtectedExactly(s.mine, s.added, i);
    }
    forall i | 0 <= i < |s.theirs|
      ensures s.theirs[i] == s.taken - s.Trsv() + i
    {
      ProtectedExactly(s.theirs, s.taken, i);
    }
  }

  lemma ShelteredIsApart(s: State)
    requires Inv(s) && Sheltered(s)
    ensures Apart(s)
  {
    forall i, j | 0 <= i < |s.mine| && 0 <= j < |s.theirs|
      ensures Slot(s.mine[i], s.cap) != Slot(s.theirs[j], s.cap)
    {
      SlotsDiffer(s.theirs[j], s.mine[i], s.cap);
    }
  }

  /** Whether a call leaves every held element protected: a plain call must not pass by
      reservations of its own side, and a forced one must not push the tail past elements that
      the consumer still holds. */
  predicate Keeps(s: State, op: Op) {
    match op
    case NextHead => s.Full() || s.Hrsv() == 0
    case NextTail => s.Dry() || s.Trsv() == 0
    case ForceHead => s.Hrsv() == 0 && (s.Trsv() == 0 || !s.Crowded())
    case _ => true
  }

  /** From a protected state a call leaves a protected state if and only if the guard holds. */
  lemma StepShelter(s: State, op: Op)
    requires Inv(s) && Sheltered(s)
    ensures Sheltered(Step(s, op)) <==> Keeps(s, op)
  {
    Shelter(s);
    var t := Step(s, op);
    match op
    case NextHead =>
      if !Keeps(s, op) { assert t.mine[0] == t.added - 1 - t.Hrsv(); }
    case NextTail =>
      if !Keeps(s, op) { assert t.theirs[0] == t.taken - 1 - t.Trsv(); }
    case ForceHead =>
      if s.Hrsv() > 0 { assert t.mine[0] == t.added - 1 - t.Hrsv(); }
      if s.Trsv() > 0 && s.Crowded() { assert t.theirs[0] == t.taken - 1 - t.Trsv(); }
    case _ =>
  }

  /** Ring reservation safety: in every run whose plain and forced calls respect the guards, no
      slot is held by both sides. */
  lemma {:induction false} RunIsApart(cap: nat, ops: seq<Op>)
    requires cap > 0
    requires forall i :: 0 <= i < |ops| ==> Keeps(From(Empty(cap), ops[..i]), ops[i])
    ensures Sheltered(From(Empty(cap), ops)) && Apart(From(Empty(cap), ops))
  {
    if ops != [] {
      var n := |ops| - 1;
      var s := From(Empty(cap), ops[..n]);
      forall i | 0 <= i < n
        ensures Keeps(From(Empty(cap), ops[..n][..i]), ops[..n][i])
      {
        assert ops[..n][..i] == ops[..i];
      }
      RunIsApart(cap, ops[..n]);
      RunInv(cap, ops[..n]);
      StepShelter(s, ops[n]);
    }
    RunInv(cap, ops);
    ShelteredIsApart(From(Empty(cap), ops));
  }

  /** While what is held is protected, the slot that the next add uses is one of the consumer's
      exactly when queued and held slots fill the ring: then a plain or a reserving add is
      refused and a forced one goes ahead. */
  lemma HeadIsFree(s: State)
    requires Inv(s) && Sheltered(s)
    ensures Holds(s.theirs, s.cap, Slot(s.added, s.cap)) <==> s.Trsv() > 0 && s.Count() + s.Trsv() == s.cap
  {
    Shelter(s);
    forall i | 0 <= i < |s.theirs|
      ensures Slot(s.theirs[i], s.cap) == Slot(s.added, s.cap) <==> s.added == s.theirs[i] + s.cap
    {
      SlotsDiffer(s.theirs[i], s.added, s.cap);
    }
    assert s.Trsv() > 0 ==> s.theirs[0] == s.taken - s.Trsv();
  }

  /** While what is held is protected, the element that is next to leave is one of the producer's
      exactly when it holds all that is queued: then a removal is refused and a forced add may
      push it out. */
  lemma TailIsFree(s: State)
    requires Inv(s) && Sheltered(s)
    ensures !s.Dry() ==> !Holds(s.mine, s.cap, Slot(s.taken, s.cap))
    ensures s.taken in s.mine <==> s.Count() == s.Hrsv() > 0
  {
    Shelter(s);
    forall i | 0 <= i < |s.mine|
      ensures Slot(s.mine[i], s.cap) == Slot(s.taken, s.cap) <==> s.mine[i] == s.taken
    {
      SlotsDiffer(s.taken, s.mine[i], s.cap);
    }
    assert s.Hrsv() > 0 ==> s.mine[0] == s.added - s.Hrsv();
  }

  // ---- an unprotected element ends up with both sides ----

  function Repeat(op: Op, n: nat): (r: seq<Op>)
    ensures |r| == n && forall i :: 0 <= i < n ==> r[i] == op
  {
    if n == 0 then [] else Repeat(op, n - 1) + [op]
  }

  lemma OneMore(s: State, op: Op, n: nat)
    requires n > 0
    ensures From(s, Repeat(op, n)) == Step(From(s, Repeat(op, n - 1)), op)
  {
    var ops := Repeat(op, n);
    assert ops[..n - 1] == Repeat(op, n - 1) && ops[n - 1] == op;
  }

  /** The consumer can be handed an element that the producer holds, is still queued and is not
      among the newest hrsv. */
  lemma ConsumerReaches(s: State, i: nat)
    requires Inv(s) && i < |s.mine| && s.taken <= s.mine[i] < s.added - s.Hrsv()
    ensures !Apart(From(s, Repeat(WaitTail, s.mine[i] - s.taken + 1)))
  {
    var n := s.mine[i] - s.taken + 1;
    WaitTails(s, n);
    var t := From(s, Repeat(WaitTail, n));
    assert t.theirs[|t.theirs| - 1] == s.mine[i] == t.mine[i];
    Shared(t, i, |t.theirs| - 1);
  }

  lemma {:induction false} WaitTails(s: State, n: nat)
    requires n <= s.Count() - s.Hrsv()
    ensures
      var t := From(s, Repeat(WaitTail, n));
      && t.cap == s.cap && t.added == s.added && t.mine == s.mine && t.taken == s.taken + n
      && (n > 0 ==> t.theirs != [] && t.theirs[|t.theirs| - 1] == s.taken + n - 1)
  {
    if n > 0 {
      WaitTails(s, n - 1);
      OneMore(s, WaitTail, n);
      hide From, Repeat;
    }
  }

  /** The producer can be handed the slot of an element that the consumer holds, that has not
      been used again, and is not among the last trsv removed. */
  lemma ProducerReaches(s: State, i: nat)
    requires Inv(s) && i < |s.theirs| && s.added <= s.theirs[i] + s.cap && s.theirs[i] < s.taken - s.Trsv()
    ensures !Apart(From(s, Repeat(WaitHead, s.theirs[i] + s.cap - s.added + 1)))
  {
    hide From, Repeat, Apart, Slot;
    var n := s.theirs[i] + s.cap - s.added + 1;
    WaitHeads(s, n);
    var t := From(s, Repeat(WaitHead, n));
    assert t.mine[|t.mine| - 1] == s.theirs[i] + s.cap && t.theirs[i] == s.theirs[i];
    SlotsDiffer(s.theirs[i], s.theirs[i] + s.cap, s.cap);
    Shared(t, |t.mine| - 1, i);
  }

  lemma {:induction false} WaitHeads(s: State, n: nat)
    requires n <= s.cap - s.Trsv() - s.Count()
    ensures
      var t := From(s, Repeat(WaitHead, n));
      && t.cap == s.cap && t.taken == s.taken && t.theirs == s.theirs && t.added == s.added + n
      && (n > 0 ==> t.mine != [] && t.mine[|t.mine| - 1] == s.added + n - 1)
  {
    if n > 0 {
      WaitHeads(s, n - 1);
      OneMore(s, WaitHead, n);
      hide From, Repeat;
    }
  }

  /** The guards are needed: from a protected state a call that breaks its guard leaves an
      element that waits alone can bring into both hands, unless it was a forced add that at
      once pushes out an element of the producer or reuses a slot of the consumer. */
  lemma UnguardedIsShared(s: State, op: Op) returns (waits: seq<Op>)
    requires Inv(s) && Sheltered(s) && !Keeps(s, op)
    ensures
      || !Apart(From(Step(s, op), waits))
      || (op == ForceHead && s.Crowded() && s.Count() == s.Hrsv() > 0)
      || (op == ForceHead && s.Trsv() > 0 && s.Count() + s.Trsv() == s.cap)
    ensures forall i :: 0 <= i < |waits| ==> waits[i] == WaitHead || waits[i] == WaitTail
  {
    hide Apart, From;
    var t := Step(s, op);
    Shelter(s);
    StepInv(s, op);
    waits := [];
    if op == NextHead || (op == ForceHead && s.Hrsv() > 0 && !(s.Crowded() && s.Count() == s.Hrsv())) {
      ConsumerReaches(t, 0);
      waits := Repeat(WaitTail, t.mine[0] - t.taken + 1);
    } else if op == NextTail || (op == ForceHead && s.Trsv() > 0 && s.Count() + s.Trsv() < s.cap && s.Hrsv() == 0) {
      ProducerReaches(t, 0);
      waits := Repeat(WaitHead, t.theirs[0] + t.cap - t.added + 1);
    }
  }

  /** A plain add after a reserving one: in any ring of two slots or more, slot 0 ends up with
      both sides. */
  lemma SharedAfterPlainAdd(cap: nat)
    requires cap >= 2
    ensures !Apart(Step(Step(Step(Empty(cap), WaitHead), NextHead), WaitTail))
  {
    hide Apart, Slot;
    var s := Step(Empty(cap), WaitHead);
    assert s == State(cap, 1, 0, [0], []);
    var t := Step(s, NextHead);
    assert t == State(cap, 2, 0, [0], []);
    assert Step(t, WaitTail) == State(cap, 2, 1, [0], [0]);
    Shared(Step(t, WaitTail), 0, 0);
  }

  /** Three plain adds and a reserving removal. */
  function OneHeld(cap: nat): State {
    Step(Step(Step(Step(Empty(cap), NextHead), NextHead), NextHead), WaitTail)
  }

  lemma OneHeldIs(cap: nat)
    requires cap >= 4
    ensures OneHeld(cap) == State(cap, 3, 1, [], [0])
  {
    var s := Step(Empty(cap), NextHead);
    assert s == State(cap, 1, 0, [], []);
    var t := Step(s, NextHead);
    assert t == State(cap, 2, 0, [], []);
    var u := Step(t, NextHead);
    assert u == State(cap, 3, 0, [], []);
    assert Step(u, WaitTail) == State(cap, 3, 1, [], [0]);
  }

  /** A forced add that pushes an element out while the consumer holds another: in a ring of four,
      slot 0 ends up with both sides. */
  lemma SharedAfterForcedAdd(cap: nat)
    requires cap == 4
    ensures !Apart(Step(Step(OneHeld(cap), ForceHead), WaitHead))
  {
    hide Apart, Slot, OneHeld;
    OneHeldIs(cap);
    var t := Step(OneHeld(cap), ForceHead);
    assert t == State(cap, 4, 2, [], [0]);
    assert Step(t, WaitHead).mine == [4];
    SlotsDiffer(0, 4, 4);
    Shared(Step(t, WaitHead), 0, 0);
  }

  /** A plain removal after a reserving one. */
  lemma SharedAfterPlainRemoval(cap: nat)
    requires cap == 4
    ensures !Apart(Step(Step(Step(OneHeld(cap), NextTail), NextHead), WaitHead))
  {
    hide Apart, Slot, OneHeld;
    OneHeldIs(cap);
    var t := Step(OneHeld(cap), NextTail);
    assert t == State(cap, 3, 2, [], [0]);
    var u := Step(t, NextHead);
    assert u == State(cap, 4, 2, [], [0]);
    assert Step(u, WaitHead).mine == [4];
    SlotsDiffer(0, 4, 4);
    Shared(Step(u, WaitHead), 0, 0);
  }

  lemma Shared(s: State, i: nat, j: nat)
    requires s.cap > 0 && i < |s.mine| && j < |s.theirs| && Slot(s.mine[i], s.cap) == Slot(s.theirs[j], s.cap)
    ensures !Apart(s)
  {
    hide Slot;
    var slot := Slot(s.mine[i], s.cap);
    assert Holds(s.mine, s.cap, slot) && Holds(s.theirs, s.cap, slot);
  }
}
