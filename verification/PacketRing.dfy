/** The packet ring (src/ring.c): pointers and counters into a circular buffer, proved against
    element numbers and the elements handed out by waits. */
module PacketRing {
  import opened RingSpec

  function AtMostCap(n: nat, cap: nat): nat {
    if n > cap then cap else n
  }

  /** The fields that the program keeps. */
  datatype Fields = Fields(head: nat, tail: nat, count: int, peak: nat, hrsv: nat, trsv: nat)

  /** Pointers and counters follow the element numbers. */
  ghost predicate Follow(f: Fields, s: State) {
    && Inv(s)
    && f.head == Slot(s.added, s.cap) && f.tail == Slot(s.taken, s.cap)
    && f.count == s.Count() <= f.peak <= s.cap
    && f.hrsv == s.Hrsv() && f.trsv == s.Trsv()
  }

  /** Elements from number lo on are in their slots. */
  ghost predicate Stored<T>(b: seq<T>, items: seq<T>, lo: int)
    requires b != []
  {
    forall p :: 0 <= p && lo <= p < |items| ==> b[Slot(p, |b|)] == items[p]
  }

  function Max(a: int, b: int): int {
    if a > b then a else b
  }

  lemma FollowBounds(f: Fields, s: State)
    requires Follow(f, s)
    ensures s.cap > 0 && f.head < s.cap && f.tail < s.cap && 0 <= f.count <= f.peak && f.count + f.trsv <= s.cap && f.hrsv <= f.count
    ensures s.Full() <==> f.count >= s.cap - f.trsv
    ensures s.Dry() <==> f.count <= f.hrsv
    ensures s.Crowded() <==> f.count + 1 >= s.cap - f.trsv
    ensures f.hrsv == |s.mine| && f.trsv == |s.theirs| && f.count == s.added - s.taken
    ensures f.head == Slot(s.added, s.cap) && f.tail == Slot(s.taken, s.cap)
  {
  }

  lemma FollowAdd(f: Fields, s: State)
    requires Follow(f, s) && !s.Full()
    ensures f.head < s.cap
    ensures Follow(f.(head := Advance(f.head, s.cap), count := f.count + 1, peak := Max(f.count + 1, f.peak)), Step(s, NextHead))
  {
    StepInv(s, NextHead);
    NextSlot(s.added, s.cap);
    hide Slot;
  }

  lemma FollowTake(f: Fields, s: State)
    requires Follow(f, s) && !s.Dry()
    ensures f.tail < s.cap
    ensures Follow(f.(tail := Advance(f.tail, s.cap), count := f.count - 1), Step(s, NextTail))
  {
    StepInv(s, NextTail);
    NextSlot(s.taken, s.cap);
    hide Slot;
  }

  lemma FollowForce(f: Fields, s: State)
    requires Follow(f, s)
    ensures f.head < s.cap && f.tail < s.cap
    ensures
      var g := f.(head := Advance(f.head, s.cap));
      var n := if s.Crowded() then f.count else f.count + 1;
      Follow(g.(tail := if s.Crowded() then Advance(f.tail, s.cap) else f.tail, count := n, peak := Max(n, f.peak)),
             Step(s, ForceHead))
  {
    StepInv(s, ForceHead);
    NextSlot(s.added, s.cap);
    NextSlot(s.taken, s.cap);
    hide Slot;
  }

  lemma FollowRelease(f: Fields, s: State, n: nat)
    requires Follow(f, s)
    ensures Follow(f.(hrsv := f.hrsv - if n > f.hrsv then f.hrsv else n), Step(s, ReleaseHead(n)))
    ensures Follow(f.(trsv := f.trsv - if n > f.trsv then f.trsv else n), Step(s, ReleaseTail(n)))
  {
    StepInv(s, ReleaseHead(n));
    StepInv(s, ReleaseTail(n));
    hide Slot;
  }

  lemma FollowWaitHead(g: Fields, s: State)
    requires Inv(s) && !s.Full() && Follow(g, Step(s, NextHead))
    ensures Step(s, WaitHead) == Step(s, NextHead).(mine := s.mine + [s.added])
    ensures Follow(g.(hrsv := AtMostCap(g.hrsv + 1, s.cap)), Step(s, WaitHead))
  {
    StepInv(s, WaitHead);
    hide Slot;
  }

  lemma FollowWaitTail(g: Fields, s: State)
    requires Inv(s) && !s.Dry() && Follow(g, Step(s, NextTail))
    ensures Step(s, WaitTail) == Step(s, NextTail).(theirs := s.theirs + [s.taken])
    ensures AtMostCap(g.trsv + 1, s.cap) == g.trsv + 1
    ensures Follow(g.(trsv := AtMostCap(g.trsv + 1, s.cap)), Step(s, WaitTail))
  {
    StepInv(s, WaitTail);
    hide Slot;
  }

  lemma StoredMore<T>(b: seq<T>, items: seq<T>, lo: int, lo': int)
    requires b != [] && Stored(b, items, lo) && lo <= lo'
    ensures Stored(b, items, lo') && Stored(b, items + [b[Slot(|items|, |b|)]], lo')
  {
    hide Slot;
  }

  lemma StoredAt<T>(b: seq<T>, items: seq<T>, lo: int, p: nat)
    requires b != [] && Stored(b, items, lo) && lo <= p < |items|
    ensures b[Slot(p, |b|)] == items[p]
  {
  }

  class Ring<T(0)> {
    const cap: nat
    const buf: array<T>
    var head: nat
    var tail: nat
    var count: nat
    var peak: nat
    /** How many slots the producer and the consumer hold. */
    var hrsv: nat
    var trsv: nat

    /** Every element ever added, how many were removed, and the numbers of those handed to the
        producer and to the consumer by a wait and not released yet. */
    ghost var items: seq<T>
    ghost var taken: nat
    ghost var mine: seq<nat>
    ghost var theirs: seq<nat>

    ghost function Kept(): Fields
      reads this
    {
      Fields(head, tail, count, peak, hrsv, trsv)
    }

    ghost function State(): RingSpec.State
      reads this
    {
      RingSpec.State(cap, |items|, taken, mine, theirs)
    }

    /** Pointers and counters follow the element numbers, and the elements from the last trsv
        removed to the newest are in their slots. */
    ghost predicate Valid()
      reads this, buf
    {
      && Follow(Kept(), State()) && cap > 0 && buf.Length == cap
      && Stored(buf[..], items, taken - trsv)
    }

    constructor (cap: nat)
      requires cap > 0
      ensures Valid() && fresh(buf) && State() == Empty(cap)
    {
      this.cap := cap;
      buf := new T[cap];
      head, tail, count, peak, hrsv, trsv := 0, 0, 0, 0, 0, 0;
      items, taken, mine, theirs := [], 0, [], [];
    }

    /** rgaNextHead: -1 stands for the null pointer. */
    method AddHead() returns (slot: int)
      requires Valid()
      modifies this`head, this`count, this`peak, this`items
      ensures Valid() && State() == Step(old(State()), NextHead)
      ensures peak == Max(count, old(peak))
      ensures slot == -1 <==> old(State()).Full()
      ensures slot == -1 ==> items == old(items)
      ensures slot != -1 ==> slot == Slot(old(|items|), cap) && items == old(items) + [buf[Slot(old(|items|), cap)]]
    {
      hide Follow, Stored, Slot;
      FollowBounds(Kept(), State());
      if count >= cap - trsv { return -1; }
      FollowAdd(Kept(), State());
      StoredMore(buf[..], items, taken - trsv, taken - trsv);
      slot := head;
      head := Advance(head, cap);
      count := count + 1;
      if count > peak { peak := count; }
      items := items + [buf[slot]];
    }

    /** rgaNextTail. */
    method TakeTail() returns (slot: int)
      requires Valid()
      modifies this`tail, this`count, this`taken
      ensures Valid() && State() == Step(old(State()), NextTail)
      ensures slot == -1 <==> old(State()).Dry()
      ensures slot != -1 ==> slot == Slot(old(taken), cap) && old(taken) < |items| && buf[Slot(old(taken), cap)] == items[old(taken)]
    {
      hide Follow, Stored, Slot;
      FollowBounds(Kept(), State());
      if count <= hrsv { return -1; }
      FollowTake(Kept(), State());
      StoredMore(buf[..], items, taken - trsv, taken + 1 - trsv);
      StoredAt(buf[..], items, taken - trsv, taken);
      slot := tail;
      tail := Advance(tail, cap);
      count := count - 1;
      taken := taken + 1;
    }

    /** rgaWaitHead, at a moment when it does not have to wait on. */
    method WaitForHead(interrupt: bool) returns (slot: int)
      requires Valid()
      modifies this`head, this`count, this`peak, this`items, this`hrsv, this`mine
      ensures Valid() && State() == if interrupt then old(State()) else Step(old(State()), WaitHead)
      ensures peak == Max(count, old(peak))
      ensures slot == -1 <==> interrupt || old(State()).Full()
      ensures slot == -1 ==> items == old(items)
      ensures slot != -1 ==> slot == Slot(old(|items|), cap) && items == old(items) + [buf[Slot(old(|items|), cap)]]
    {
      if interrupt { return -1; }
      ghost var s := State();
      AllStored();
      hide Valid, Inv;
      slot := AddHead();
      if slot != -1 { ReserveHead(s); }
    }

    /** Count the newest element as held by the producer. */
    method ReserveHead(ghost s: RingSpec.State)
      requires Valid() && Inv(s) && !s.Full() && State() == Step(s, NextHead)
      modifies this`hrsv, this`mine
      ensures Valid() && State() == Step(s, WaitHead)
    {
      hide Follow, Stored, Inv;
      FollowWaitHead(Kept(), s);
      hrsv := AtMostCap(hrsv + 1, cap);
      mine := mine + [|items| - 1];
    }

    /** rgaReleaseHead: the reservations made first are given back first. */
    method GiveHead(rsv: nat)
      requires Valid()
      modifies this`hrsv, this`mine
      ensures Valid() && State() == Step(old(State()), ReleaseHead(rsv))
    {
      hide Follow, Stored, Slot;
      FollowRelease(Kept(), State(), rsv);
      var n := if rsv > hrsv then hrsv else rsv;
      hrsv := hrsv - n;
      mine := Released(mine, rsv);
    }

    /** rgaWaitTail, at a moment when it does not have to wait on: the oldest element. */
    method WaitForTail(interrupt: bool) returns (slot: int)
      requires Valid()
      modifies this`tail, this`count, this`taken, this`trsv, this`theirs
      ensures Valid() && State() == if interrupt then old(State()) else Step(old(State()), WaitTail)
      ensures slot == -1 <==> interrupt || old(State()).Dry()
      ensures slot != -1 ==> slot == Slot(old(taken), cap) && old(taken) < |items| && buf[Slot(old(taken), cap)] == items[old(taken)]
    {
      if interrupt { return -1; }
      ghost var s := State();
      AllStored();
      hide Valid, Stored, Inv;
      slot := TakeTail();
      if slot != -1 { ReserveTail(s); }
    }

    lemma AllStored()
      requires Valid()
      ensures Inv(State()) && cap == buf.Length > 0 && trsv == |theirs| && Stored(buf[..], items, taken - |theirs|)
    {
    }

    /** Count the element removed last as held by the consumer. */
    method ReserveTail(ghost s: RingSpec.State)
      requires Valid() && Inv(s) && !s.Dry() && State() == Step(s, NextTail) && buf.Length > 0
      requires Stored(buf[..], items, s.taken - |s.theirs|)
      modifies this`trsv, this`theirs
      ensures Valid() && State() == Step(s, WaitTail)
    {
      hide Follow, Stored, Inv;
      FollowBounds(Kept(), State());
      FollowWaitTail(Kept(), s);
      trsv := AtMostCap(trsv + 1, cap);
      theirs := theirs + [taken - 1];
    }

    /** rgaReleaseTail. */
    method GiveTail(rsv: nat)
      requires Valid()
      modifies this`trsv, this`theirs
      ensures Valid() && State() == Step(old(State()), ReleaseTail(rsv))
    {
      hide Follow, Stored, Slot;
      FollowRelease(Kept(), State(), rsv);
      var n := if rsv > trsv then trsv else rsv;
      StoredMore(buf[..], items, taken - trsv, taken - trsv + n);
      trsv := trsv - n;
      theirs := Released(theirs, rsv);
    }

    /** rgaForceHead: an element is always added, at the cost of the oldest one when the ring
        would otherwise become full. */
    method ForceAtHead() returns (slot: nat)
      requires Valid()
      modifies this`head, this`tail, this`count, this`peak, this`items, this`taken
      ensures Valid() && State() == Step(old(State()), ForceHead)
      ensures peak == Max(count, old(peak))
      ensures slot == Slot(old(|items|), cap) && items == old(items) + [buf[Slot(old(|items|), cap)]]
    {
      ghost var s := State();
      hide Follow, Stored, Slot;
      FollowBounds(Kept(), s);
      FollowForce(Kept(), s);
      StoredMore(buf[..], items, taken - trsv, taken - trsv);
      StoredMore(buf[..], items, taken - trsv, taken + 1 - trsv);
      slot := head;
      head := Advance(head, cap);
      count := count + 1;
      if count >= cap - trsv {
        tail := Advance(tail, cap);
        count := count - 1;
        taken := taken + 1;
      }
      if count > peak { peak := count; }
      items := items + [buf[slot]];
    }

    /** The user of the ring writes element p, which is still in it: no other element, and none of
        the last trsv removed, changes. */
    method Fill(slot: nat, v: T, ghost p: nat)
      requires Valid() && taken <= p < |items| && slot == Slot(p, cap)
      modifies this`items, buf
      ensures Valid() && items == old(items)[p := v] && State() == old(State())
    {
      FollowBounds(Kept(), State());
      forall q | 0 <= q && taken - trsv <= q < |items|
        ensures Slot(q, cap) == slot <==> q == p
      {
        if q <= p { SlotsDiffer(q, p, cap); } else { SlotsDiffer(p, q, cap); }
      }
      hide Slot, Follow;
      buf[slot] := v;
      items := items[p := v];
    }

    /** While what both sides hold is protected, an element that the consumer holds is what was
        added under its number. */
    lemma HeldElement(i: nat)
      requires Valid() && Sheltered(State()) && i < |theirs|
      ensures theirs[i] < |items| && buf[Slot(theirs[i], cap)] == items[theirs[i]]
    {
      StoredAt(buf[..], items, taken - trsv, theirs[i]);
    }
  }
}
