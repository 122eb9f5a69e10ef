/** The word-circular bitmap (src/bitmap.c) without words and without its circularity: a
    sequence of bits, lowest position first, and the bits already shifted out below it. */
module BitmapSpec {

  const WORD := 64

  /** What a range looked like before it was set: nothing set; only its first, only its last,
      only its first and last position; everything; or something else. */
  datatype Intersect = NONE | START | END | EDGE | FULL | PART

  /** Only position k of lo..hi is set. */
  predicate OnlyAt(bs: seq<bool>, lo: nat, hi: nat, k: nat)
    requires lo <= k <= hi < |bs|
  {
    forall x :: lo <= x <= hi ==> (bs[x] <==> x == k)
  }

  predicate AllClear(bs: seq<bool>, lo: nat, hi: nat)
    requires lo <= hi < |bs|
  {
    forall x :: lo <= x <= hi ==> !bs[x]
  }

  predicate AllSet(bs: seq<bool>, lo: nat, hi: nat)
    requires lo <= hi < |bs|
  {
    forall x :: lo <= x <= hi ==> bs[x]
  }

  /** The test on the masked part of one word. */
  function Classify(bs: seq<bool>, lo: nat, hi: nat): Intersect
    requires lo <= hi < |bs|
  {
    if AllClear(bs, lo, hi) then NONE
    else if AllSet(bs, lo, hi) then FULL
    else if OnlyAt(bs, lo, hi, lo) then START
    else if OnlyAt(bs, lo, hi, hi) then END
    else PART
  }

  function Combine(prev: Intersect, cur: Intersect): Intersect {
    match prev
    case START => (match cur case END => EDGE case NONE => START case _ => PART)
    case NONE => if cur == NONE then NONE else PART
    case FULL => if cur == FULL then FULL else PART
    case _ => PART
  }

  /** Set positions a..b. */
  function SetBits(bs: seq<bool>, a: int, b: int): (r: seq<bool>)
    ensures |r| == |bs|
    ensures forall x :: 0 <= x < |bs| ==> r[x] == (bs[x] || a <= x <= b)
  {
    seq(|bs|, x requires 0 <= x < |bs| => bs[x] || a <= x <= b)
  }

  // ---- classification of a range ----

  /** Some position is set and some is clear. */
  ghost predicate Mixed(bs: seq<bool>, lo: nat, hi: nat)
    requires lo <= hi < |bs|
  {
    !AllClear(bs, lo, hi) && !AllSet(bs, lo, hi)
  }

  /** Class c describes positions lo..hi. */
  ghost predicate Verdict(c: Intersect, bs: seq<bool>, lo: nat, hi: nat)
    requires lo <= hi < |bs|
  {
    match c
    case NONE => AllClear(bs, lo, hi)
    case FULL => AllSet(bs, lo, hi)
    case START => Mixed(bs, lo, hi) && OnlyAt(bs, lo, hi, lo)
    case END => Mixed(bs, lo, hi) && OnlyAt(bs, lo, hi, hi)
    case EDGE => Mixed(bs, lo, hi) && forall x :: lo <= x <= hi ==> (bs[x] <==> x == lo || x == hi)
    case PART => Mixed(bs, lo, hi)
  }

  /** Combining the classes of two adjacent ranges describes their union. */
  lemma CombineSound(p: Intersect, c: Intersect, bs: seq<bool>, lo: nat, mid: nat, hi: nat)
    requires lo <= mid < hi < |bs| && Verdict(p, bs, lo, mid) && Verdict(c, bs, mid + 1, hi)
    ensures Verdict(Combine(p, c), bs, lo, hi)
  {
    assert !AllClear(bs, lo, mid) || !AllClear(bs, mid + 1, hi) ==> !AllClear(bs, lo, hi);
    assert !AllSet(bs, lo, mid) || !AllSet(bs, mid + 1, hi) ==> !AllSet(bs, lo, hi);
    assert AllClear(bs, lo, mid) ==> !bs[lo];
    assert AllSet(bs, lo, mid) ==> bs[lo];
    assert AllClear(bs, mid + 1, hi) ==> !bs[hi];
    assert AllSet(bs, mid + 1, hi) ==> bs[hi];
  }

  /** The class of positions s..b, word by word, when s starts a word and `res` is the class
      of what lies below. */
  function ClassFrom(bs: seq<bool>, s: nat, b: nat, res: Intersect): Intersect
    requires s <= b < |bs|
    decreases b - s
  {
    if b < s + WORD then Combine(res, Classify(bs, s, b))
    else ClassFrom(bs, s + WORD, b, Combine(res, Classify(bs, s, s + WORD - 1)))
  }

  /** First position above a that starts a word. */
  function NextWord(a: nat): nat {
    WORD * (a / WORD + 1)
  }

  function RangeClass(bs: seq<bool>, a: nat, b: nat): Intersect
    requires a <= b < |bs|
  {
    if b < NextWord(a) then Classify(bs, a, b)
    else ClassFrom(bs, NextWord(a), b, Classify(bs, a, NextWord(a) - 1))
  }

  lemma {:induction false} ClassFromSound(bs: seq<bool>, s: nat, b: nat, res: Intersect, a: nat)
    requires a < s <= b < |bs| && Verdict(res, bs, a, s - 1)
    ensures Verdict(ClassFrom(bs, s, b, res), bs, a, b)
    decreases b - s
  {
    hide Verdict, Combine, Classify;
    var e := if b < s + WORD then b else s + WORD - 1;
    ClassifySound(bs, s, e);
    CombineSound(res, Classify(bs, s, e), bs, a, s - 1, e);
    if b >= s + WORD {
      ClassFromSound(bs, s + WORD, b, Combine(res, Classify(bs, s, e)), a);
    }
  }

  lemma ClassifySound(bs: seq<bool>, lo: nat, hi: nat)
    requires lo <= hi < |bs|
    ensures Verdict(Classify(bs, lo, hi), bs, lo, hi)
  {
  }

  /** The class returned for a range, across any number of words, is exact for NONE and FULL;
      START, END and EDGE say exactly which positions were set; PART says some but not all. */
  lemma RangeClassSound(bs: seq<bool>, a: nat, b: nat)
    requires a <= b < |bs|
    ensures Verdict(RangeClass(bs, a, b), bs, a, b)
    ensures RangeClass(bs, a, b) == NONE <==> AllClear(bs, a, b)
    ensures RangeClass(bs, a, b) == FULL <==> AllSet(bs, a, b)
  {
    hide Classify;
    if b < NextWord(a) {
      ClassifySound(bs, a, b);
    } else {
      ClassifySound(bs, a, NextWord(a) - 1);
      ClassFromSound(bs, NextWord(a), b, Classify(bs, a, NextWord(a) - 1), a);
    }
    assert !(AllClear(bs, a, b) && bs[a]) && !(AllSet(bs, a, b) && !bs[a]);
  }

  // ---- which class, exactly ----

  lemma ClassifyExactly(bs: seq<bool>, lo: nat, hi: nat)
    requires lo <= hi < |bs|
    ensures Classify(bs, lo, hi) == NONE <==> AllClear(bs, lo, hi)
    ensures Classify(bs, lo, hi) == START <==> lo < hi && OnlyAt(bs, lo, hi, lo)
    ensures Classify(bs, lo, hi) == END <==> lo < hi && OnlyAt(bs, lo, hi, hi)
    ensures Classify(bs, lo, hi) != EDGE
  {
    if lo < hi {
      assert !(bs[lo] && AllClear(bs, lo, hi)) && !(!bs[hi] && AllSet(bs, lo, hi)) && !(!bs[lo] && AllSet(bs, lo, hi));
      assert !(bs[hi] && AllClear(bs, lo, hi));
    }
  }

  /** Over whole words from s on, only what follows a START can end as START or EDGE. */
  lemma {:induction false} ClassFromExactly(bs: seq<bool>, s: nat, b: nat, res: Intersect)
    requires s <= b < |bs| && s % WORD == 0
    ensures
      var r := ClassFrom(bs, s, b, res);
      && (r == START <==> res == START && AllClear(bs, s, b))
      && (r == EDGE <==> res == START && OnlyAt(bs, s, b, b) && b % WORD != 0)
      && r != END
    decreases b - s
  {
    hide Classify;
    if b < s + WORD {
      ClassifyExactly(bs, s, b);
    } else {
      var e := s + WORD - 1;
      ClassifyExactly(bs, s, e);
      ClassFromExactly(bs, e + 1, b, Combine(res, Classify(bs, s, e)));
      assert AllClear(bs, s, b) <==> AllClear(bs, s, e) && AllClear(bs, e + 1, b);
      assert OnlyAt(bs, s, b, b) <==> AllClear(bs, s, e) && OnlyAt(bs, e + 1, b, b);
    }
  }

  /** Which class is returned, for ranges over any number of words: START and EDGE need a second
      position in the first word, EDGE one in the last, and END a single word; anything else that is
      neither all clear nor all set is PART. */
  lemma RangeClassExactly(bs: seq<bool>, a: nat, b: nat)
    requires a <= b < |bs|
    ensures RangeClass(bs, a, b) == START <==> a < b && a % 64 != 63 && OnlyAt(bs, a, b, a)
    ensures RangeClass(bs, a, b) == END <==> a < b && a / 64 == b / 64 && OnlyAt(bs, a, b, b)
    ensures RangeClass(bs, a, b) == EDGE <==>
      && a / 64 < b / 64 && a % 64 != 63 && b % 64 != 0
      && forall x :: a <= x <= b ==> (bs[x] <==> x == a || x == b)
  {
    hide Classify;
    if b < NextWord(a) {
      ClassifyExactly(bs, a, b);
    } else {
      var e := NextWord(a) - 1;
      ClassifyExactly(bs, a, e);
      ClassFromExactly(bs, e + 1, b, Classify(bs, a, e));
      assert a % 64 != 63 <==> a < e;
      assert OnlyAt(bs, a, b, a) <==> OnlyAt(bs, a, e, a) && AllClear(bs, e + 1, b);
      assert (forall x :: a <= x <= b ==> (bs[x] <==> x == a || x == b)) <==> OnlyAt(bs, a, e, a) && OnlyAt(bs, e + 1, b, b);
    }
  }

  // ---- conservation ----

  function Ones(bs: seq<bool>): nat {
    if bs == [] then 0 else Ones(bs[..|bs| - 1]) + (if bs[|bs| - 1] then 1 else 0)
  }

  /** The positions of the one bits. */
  function Positions(bs: seq<bool>): (r: set<nat>)
    ensures forall x: nat :: x in r <==> x < |bs| && bs[x]
    ensures |r| == Ones(bs)
  {
    if bs == [] then {}
    else
      var n := |bs| - 1;
      if bs[n] then Positions(bs[..n]) + {n} else Positions(bs[..n])
  }

  lemma {:induction false} OnesAppend(x: seq<bool>, y: seq<bool>)
    ensures Ones(x + y) == Ones(x) + Ones(y)
    decreases |y|
  {
    if y == [] {
      assert x + y == x;
    } else {
      OnesAppend(x, y[..|y| - 1]);
      assert (x + y)[..|x + y| - 1] == x + y[..|y| - 1];
    }
  }

  function Zeros(n: nat): (r: seq<bool>)
    ensures |r| == n && forall i :: 0 <= i < n ==> !r[i]
  {
    seq(n, _ => false)
  }

  datatype Op = SetRange(a: nat, b: nat) | ShiftDown

  /** Bits shifted out so far, lowest first, and bits still held. */
  datatype Bits = Bits(out: seq<bool>, held: seq<bool>)

  function Apply(s: Bits, op: Op): Bits
    requires |s.held| >= WORD
  {
    match op
    case SetRange(a, b) => s.(held := SetBits(s.held, a, b))
    case ShiftDown => Bits(s.out + s.held[..WORD], s.held[WORD..] + Zeros(WORD))
  }

  /** Ranges lie within the capacity. */
  predicate InCapacity(cap: nat, ops: seq<Op>) {
    forall i :: 0 <= i < |ops| && ops[i].SetRange? ==> ops[i].a <= ops[i].b < cap
  }

  function Run(cap: nat, ops: seq<Op>): (s: Bits)
    requires cap >= WORD
    ensures |s.held| == cap
  {
    if ops == [] then Bits([], Zeros(cap))
    else Apply(Run(cap, ops[..|ops| - 1]), ops[|ops| - 1])
  }

  /** The numbers lo..hi. */
  function Interval(lo: nat, hi: int): (r: set<nat>)
    ensures forall x: nat :: x in r <==> lo <= x <= hi
    decreases hi - lo
  {
    if hi < lo then {} else Interval(lo, hi - 1) + {hi}
  }

  /** Absolute positions ever set: a range counts from the lowest position held at the time. */
  function EverSet(cap: nat, ops: seq<Op>): set<nat>
    requires cap >= WORD
  {
    if ops == [] then {}
    else
      var base := |Run(cap, ops[..|ops| - 1]).out|;
      EverSet(cap, ops[..|ops| - 1]) +
      match ops[|ops| - 1]
      case SetRange(a, b) => Interval(base + a, base + b)
      case ShiftDown => {}
  }

  /** The bitmap refines a set of absolute positions. */
  lemma {:induction false} RunIsSet(cap: nat, ops: seq<Op>, x: nat)
    requires cap >= WORD && InCapacity(cap, ops)
    ensures
      var s := Run(cap, ops);
      x in EverSet(cap, ops) <==> x < |s.out + s.held| && (s.out + s.held)[x]
  {
    if ops != [] {
      var n := |ops| - 1;
      var s := Run(cap, ops[..n]);
      RunIsSet(cap, ops[..n], x);
      match ops[n]
      case SetRange(a, b) =>
      case ShiftDown =>
        assert s.out + s.held[..WORD] + (s.held[WORD..] + Zeros(WORD)) == (s.out + s.held) + Zeros(WORD);
    }
  }

  /** Conservation: the one bits shifted out plus those still held are as many as the
      positions ever set, over every interleaving of range sets and shifts. */
  lemma CountsAreConserved(cap: nat, ops: seq<Op>)
    requires cap >= WORD && InCapacity(cap, ops)
    ensures
      var s := Run(cap, ops);
      Ones(s.out) + Ones(s.held) == |EverSet(cap, ops)|
  {
    var s := Run(cap, ops);
    OnesAppend(s.out, s.held);
    var p := Positions(s.out + s.held);
    forall x: nat
      ensures x in p <==> x in EverSet(cap, ops)
    {
      RunIsSet(cap, ops, x);
    }
    assert p == EverSet(cap, ops);
  }
}
