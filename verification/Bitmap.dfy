/** The word-circular bitmap (src/bitmap.c): an array of words of which `base` is the lowest,
    proved against the flat sequence of bits. */
module Bitmap {
  import opened BitmapSpec
  import opened Words
  import opened BitCount

  /** The array index of the j-th word from base. */
  function Slot(sz: nat, base: nat, j: nat): (i: nat)
    requires base < sz && j < sz
    ensures i < sz
  {
    if base + j < sz then base + j else base + j - sz
  }

  /** The index computed for the j-th word, and the one after it. */
  function IndexOf(sz: nat, base: nat, j: nat): nat
    requires sz > 0
  {
    (base + j) % sz
  }

  function NextIndex(sz: nat, i: nat): nat
    requires sz > 0
  {
    (i + 1) % sz
  }

  lemma SlotIsMod(sz: nat, base: nat, j: nat)
    requires base < sz && j < sz
    ensures Slot(sz, base, j) == IndexOf(sz, base, j)
  {
    if base + j >= sz {
      ModOnce(sz, base + j);
    } else {
      ModNone(sz, base + j);
    }
  }

  lemma ModNone(sz: nat, x: nat)
    requires x < sz
    ensures x % sz == x
  {
  }

  lemma ModOnce(sz: nat, x: nat)
    requires 0 < sz <= x < 2 * sz
    ensures x % sz == x - sz
  {
    assert x == sz + (x - sz);
  }

  lemma SlotsDiffer(sz: nat, base: nat, j: nat, k: nat)
    requires base < sz && j < sz && k < sz
    ensures Slot(sz, base, j) == Slot(sz, base, k) <==> j == k
  {
  }

  lemma SlotNext(sz: nat, base: nat, j: nat)
    requires base < sz && j + 1 < sz
    ensures NextIndex(sz, Slot(sz, base, j)) == Slot(sz, base, j + 1)
  {
    NextMod(sz, Slot(sz, base, j));
  }

  predicate Based(ws: seq<bv64>, base: nat) {
    base < |ws| || base == |ws| == 0
  }

  /** The bits held, lowest position first. */
  function Flat(ws: seq<bv64>, base: nat): (r: seq<bool>)
    requires Based(ws, base)
    ensures |r| == WORD * |ws|
  {
    seq(WORD * |ws|, x requires 0 <= x < WORD * |ws| => Bit(ws[Slot(|ws|, base, x / WORD)], x % WORD))
  }

  /** Word j of the flat sequence. */
  lemma FlatWord(ws: seq<bv64>, base: nat, j: nat)
    requires base < |ws| && j < |ws|
    ensures Flat(ws, base)[WORD * j..WORD * (j + 1)] == WordBits(ws[Slot(|ws|, base, j)])
  {
    hide Bit, Slot;
    var f := Flat(ws, base);
    forall x | 0 <= x < WORD
      ensures f[WORD * j + x] == Bit(ws[Slot(|ws|, base, j)], x)
    {
      assert (WORD * j + x) / WORD == j && (WORD * j + x) % WORD == x;
    }
  }

  /** Setting a..b within word j is setting the same positions of the flat sequence. */
  lemma SetInWord(ws: seq<bv64>, base: nat, j: nat, a: nat, b: nat, u: bv64)
    requires base < |ws| && j < |ws| && a <= b < WORD
    requires WordBits(u) == SetBits(WordBits(ws[Slot(|ws|, base, j)]), a, b)
    ensures
      Flat(ws[Slot(|ws|, base, j) := u], base) == SetBits(Flat(ws, base), WORD * j + a, WORD * j + b)
  {
    hide Bit, Slot;
    var i := Slot(|ws|, base, j);
    var f, g := Flat(ws, base), Flat(ws[i := u], base);
    forall x | 0 <= x < WORD * |ws|
      ensures g[x] == (f[x] || WORD * j + a <= x <= WORD * j + b)
    {
      var k, y := x / WORD, x % WORD;
      assert x == WORD * k + y;
      SlotsDiffer(|ws|, base, k, j);
      assert WordBits(u)[y] == (WordBits(ws[i])[y] || a <= y <= b);
      assert g[x] == Bit(ws[i := u][Slot(|ws|, base, k)], y);
      assert f[x] == Bit(ws[Slot(|ws|, base, k)], y);
    }
  }

  /** The class within word j is the class of the same positions of the flat sequence. */
  lemma ClassInWord(ws: seq<bv64>, base: nat, j: nat, a: nat, b: nat)
    requires base < |ws| && j < |ws| && a <= b < WORD
    ensures
      ClassOf(ws[Slot(|ws|, base, j)], a, b) == Classify(Flat(ws, base), WORD * j + a, WORD * j + b)
  {
    hide Bit, ClassOf, Slot, Flat;
    var w := ws[Slot(|ws|, base, j)];
    ClassOfIsClassify(w, a, b);
    FlatWord(ws, base, j);
    ClassifyShifted(Flat(ws, base), WORD * j, WordBits(w), a, b);
  }

  lemma ClassifyShifted(f: seq<bool>, o: nat, bs: seq<bool>, a: nat, b: nat)
    requires a <= b < |bs| && o + |bs| <= |f| && f[o..o + |bs|] == bs
    ensures Classify(f, o + a, o + b) == Classify(bs, a, b)
  {
    forall k | a <= k <= b
      ensures bs[k] == f[o + k]
    {
      assert bs[k] == f[o..o + |bs|][k];
    }
    assert AllClear(f, o + a, o + b) <==> AllClear(bs, a, b) by {
      if AllClear(bs, a, b) {
        assert forall x | o + a <= x <= o + b :: f[x] == bs[x - o];
      }
    }
    assert AllSet(f, o + a, o + b) <==> AllSet(bs, a, b) by {
      if AllSet(bs, a, b) {
        assert forall x | o + a <= x <= o + b :: f[x] == bs[x - o];
      }
    }
    OnlyShifted(f, o, bs, a, b, a);
    OnlyShifted(f, o, bs, a, b, b);
  }

  lemma OnlyShifted(f: seq<bool>, o: nat, bs: seq<bool>, a: nat, b: nat, k: nat)
    requires a <= k <= b < |bs| && o + |bs| <= |f| && f[o..o + |bs|] == bs
    ensures OnlyAt(f, o + a, o + b, o + k) <==> OnlyAt(bs, a, b, k)
  {
    assert forall x | a <= x <= b :: bs[x] == f[o + x] && f[o..o + |bs|][x] == bs[x];
    assert forall x | o + a <= x <= o + b :: f[x] == bs[x - o];
  }

  lemma SetTwice(f: seq<bool>, a: int, m: int, b: int)
    requires a <= m <= b + 1
    ensures SetBits(SetBits(f, a, m - 1), m, b) == SetBits(f, a, b)
  {
  }

  /** Positions above those set so far keep their class. */
  lemma ClassUntouched(f: seq<bool>, a: int, m: nat, lo: nat, hi: nat)
    requires m <= lo <= hi < |f|
    ensures Classify(SetBits(f, a, m - 1), lo, hi) == Classify(f, lo, hi)
  {
    var g := SetBits(f, a, m - 1);
    assert forall x | lo <= x <= hi :: g[x] == f[x];
    assert AllClear(g, lo, hi) == AllClear(f, lo, hi);
    assert AllSet(g, lo, hi) == AllSet(f, lo, hi);
    assert OnlyAt(g, lo, hi, lo) == OnlyAt(f, lo, hi, lo);
    assert OnlyAt(g, lo, hi, hi) == OnlyAt(f, lo, hi, hi);
  }

  // ---- the bitmap and the run that led to it ----

  /** The words held and the words shifted out are what the operations lead to. */
  ghost predicate Tracks(ws: seq<bv64>, base: nat, out: seq<bv64>, ops: seq<Op>) {
    && Based(ws, base)
    && InCapacity(WORD * |ws|, ops)
    && (ws != [] ==> Run(WORD * |ws|, ops) == Bits(Joined(out), Flat(ws, base)))
  }

  lemma TracksNothing(ws: seq<bv64>)
    requires forall i :: 0 <= i < |ws| ==> ws[i] == 0
    ensures Tracks(ws, 0, [], []) && Flat(ws, 0) == Zeros(WORD * |ws|)
  {
    forall x | 0 <= x < WORD * |ws|
      ensures !Flat(ws, 0)[x]
    {
      ZeroBits(x % WORD);
      hide Bit;
    }
  }

  lemma TracksSet(ws: seq<bv64>, ws': seq<bv64>, base: nat, out: seq<bv64>, ops: seq<Op>, a: nat, b: nat)
    requires Tracks(ws, base, out, ops) && |ws'| == |ws| && a <= b < WORD * |ws|
    requires Flat(ws', base) == SetBits(Flat(ws, base), a, b)
    ensures Tracks(ws', base, out, ops + [SetRange(a, b)])
  {
    hide Flat, Joined, SetBits;
    var ops' := ops + [SetRange(a, b)];
    assert ops'[..|ops|] == ops;
  }

  lemma TracksShift(ws: seq<bv64>, ws': seq<bv64>, base: nat, base': nat, out: seq<bv64>, ops: seq<Op>, w: bv64)
    requires Tracks(ws, base, out, ops) && |ws'| == |ws| > 0 && Based(ws', base')
    requires WordBits(w) == Flat(ws, base)[..WORD]
    requires Flat(ws', base') == Flat(ws, base)[WORD..] + Zeros(WORD)
    ensures Tracks(ws', base', out + [w], ops + [Op.ShiftDown])
  {
    hide Flat, WordBits;
    var ops' := ops + [Op.ShiftDown];
    assert ops'[..|ops|] == ops && (out + [w])[..|out|] == out;
  }

  class Map {
    var v: array<bv64>
    var base: nat
    /** The words shifted out and the operations so far. */
    ghost var out: seq<bv64>
    ghost var ops: seq<Op>

    ghost predicate Valid()
      reads this, v
    {
      Tracks(v[..], base, out, ops)
    }

    ghost function Held(): (r: seq<bool>)
      requires Based(v[..], base)
      reads this, v
      ensures |r| == WORD * v.Length
    {
      Flat(v[..], base)
    }

    /** bimInit. */
    constructor (capacity: nat)
      ensures Valid() && fresh(v) && out == [] && ops == []
      ensures capacity <= |Held()| < capacity + WORD && Held() == Zeros(|Held()|)
    {
      var sz := capacity / WORD;
      if capacity % WORD != 0 { sz := sz + 1; }
      v := new bv64[sz](_ => 0);
      base := 0;
      out, ops := [], [];
      new;
      TracksNothing(v[..]);
    }

    method TestAndSetInner(i: nat, a: nat, b: nat) returns (res: Intersect)
      requires i < v.Length && a <= b < WORD
      modifies v
      ensures v[..] == old(v[..])[i := WithMask(old(v[i]), a, b)]
      ensures res == ClassOf(old(v[i]), a, b)
    {
      hide Mask, Masked, BitMask, WithMask;
      var w, m := v[i], Mask(a, b);
      var u := Masked(w, a, b);
      if u == 0 { res := NONE; }
      else if u == m { res := FULL; }
      else if u == BitMask(a) { res := START; }
      else if u == BitMask(b) { res := END; }
      else { res := PART; }
      v[i] := WithMask(w, a, b);
    }

    /** The same, read as positions of the whole bitmap. */
    method TestAndSetWord(i: nat, a: nat, b: nat, ghost j: nat) returns (res: Intersect)
      requires Based(v[..], base) && j < v.Length && i == Slot(v.Length, base, j) && a <= b < WORD
      modifies v
      ensures Based(v[..], base) && Held() == SetBits(old(Held()), WORD * j + a, WORD * j + b)
      ensures res == Classify(old(Held()), WORD * j + a, WORD * j + b)
    {
      hide WithMask, ClassOf, Flat, Slot, Classify, WordBits;
      SetIsOr(v[i], a, b);
      SetInWord(v[..], base, j, a, b, WithMask(v[i], a, b));
      ClassInWord(v[..], base, j, a, b);
      res := TestAndSetInner(i, a, b);
    }

    method TestAndSetRange(a: nat, b: nat) returns (res: Intersect)
      requires Valid() && a <= b < WORD * v.Length
      modifies this`ops, v
      ensures Valid() && Held() == SetBits(old(Held()), a, b)
      ensures res == RangeClass(old(Held()), a, b) && ops == old(ops) + [SetRange(a, b)]
    {
      hide Flat, Run, RangeClass;
      ghost var ws := v[..];
      res := SetWords(a, b);
      TracksSet(ws, v[..], base, out, ops, a, b);
      ops := ops + [SetRange(a, b)];
    }

    method SetWords(a: nat, b: nat) returns (res: Intersect)
      requires Based(v[..], base) && a <= b < WORD * v.Length
      modifies v
      ensures Based(v[..], base) && Held() == SetBits(old(Held()), a, b)
      ensures res == RangeClass(old(Held()), a, b)
    {
      hide Classify, Combine, Flat, Slot, RangeClass, IndexOf, NextIndex, ClassFrom;
      ghost var f := Held();
      ghost var p, q := a / WORD, b / WORD;
      var i := IndexOf(v.Length, base, a / WORD);
      var j := IndexOf(v.Length, base, b / WORD);
      SlotIsMod(v.Length, base, p);
      SlotIsMod(v.Length, base, q);
      SlotsDiffer(v.Length, base, p, q);
      var lo, hi := a % WORD, b % WORD;
      if i == j {
        OneWord(f, a, b);
        res := TestAndSetWord(i, lo, hi, p);
      } else {
        FirstWord(f, a, b);
        res := TestAndSetWord(i, lo, WORD - 1, p);
        SlotNext(v.Length, base, p);
        i := NextIndex(v.Length, i);
        ghost var w := p + 1;
        while i != j
          invariant Based(v[..], base) && p < w <= q && i == Slot(v.Length, base, w)
          invariant j == Slot(v.Length, base, q)
          invariant Held() == SetBits(f, a, WORD * w - 1)
          invariant ClassFrom(f, WORD * w, b, res) == RangeClass(f, a, b)
          decreases q - w
        {
          SlotsDiffer(v.Length, base, w, q);
          ClassUntouched(f, a, WORD * w, WORD * w, WORD * w + WORD - 1);
          SetTwice(f, a, WORD * w, WORD * w + WORD - 1);
          NextClass(f, w, b, res);
          var cur := TestAndSetWord(i, 0, WORD - 1, w);
          res := Combine(res, cur);
          SlotNext(v.Length, base, w);
          i := NextIndex(v.Length, i);
          w := w + 1;
        }
        SlotsDiffer(v.Length, base, w, q);
        ClassUntouched(f, a, WORD * w, WORD * w, b);
        SetTwice(f, a, WORD * w, b);
        LastClass(f, w, b, res);
        var cur := TestAndSetWord(i, 0, hi, w);
        res := Combine(res, cur);
      }
    }

    method TestBit(a: nat) returns (r: bool)
      requires Valid() && a < WORD * v.Length
      ensures r == Held()[a]
    {
      var i := IndexOf(v.Length, base, a / WORD);
      SlotIsMod(v.Length, base, a / WORD);
      hide BitAt, Meets, Index, Slot, IndexOf;
      r := Meets(v[i], Index(a % WORD));
      MeetsBit(v[i], Index(a % WORD));
    }

    /** bimShiftDown: the lowest word leaves and an empty word becomes the highest. */
    method ShiftDown() returns (w: bv64)
      requires Valid() && v.Length > 0
      modifies this, v
      ensures Valid() && v == old(v)
      ensures WordBits(w) == old(Held())[..WORD]
      ensures Held() == old(Held())[WORD..] + Zeros(WORD)
      ensures out == old(out) + [w] && ops == old(ops) + [Op.ShiftDown]
    {
      hide Bit, Flat, Slot, WordBits, Run;
      BaseSlot(v.Length, base);
      FlatWord(v[..], base, 0);
      w := v[base];
      v[base] := 0;
      base := (base + 1) % v.Length;
      Shifted(old(v[..]), old(base));
      assert v[..] == old(v[..])[old(base) := 0];
      TracksShift(old(v[..]), v[..], old(base), base, out, ops, w);
      out := out + [w];
      ops := ops + [Op.ShiftDown];
    }

    /** The counts of the words this bitmap shifted out, plus the bits it still holds, are as many
        as the positions ever set in it. */
    lemma CountsOfRun()
      requires Valid() && v.Length > 0
      ensures CountAll(out) + Ones(Held()) == |EverSet(WORD * v.Length, ops)|
    {
      WordCountsAreConserved(WORD * v.Length, ops, out);
    }
  }

  lemma NextMod(n: nat, i: nat)
    requires i < n
    ensures (i + 1) % n == if i + 1 == n then 0 else i + 1
  {
    if i + 1 == n {
      ModOnce(n, n);
    }
  }

  lemma ShiftedSlot(n: nat, base: nat, j: nat)
    requires base < n && j < n
    ensures
      var next := (base + 1) % n;
      next < n && Slot(n, next, j) == if j < n - 1 then Slot(n, base, j + 1) else base
  {
    NextMod(n, base);
  }

  lemma FlatAt(ws: seq<bv64>, base: nat, x: nat)
    requires base < |ws| && x < WORD * |ws|
    ensures Flat(ws, base)[x] == Bit(ws[Slot(|ws|, base, x / WORD)], x % WORD)
  {
  }

  lemma Shifted(ws: seq<bv64>, base: nat)
    requires base < |ws|
    ensures
      var next := (base + 1) % |ws|;
      Based(ws[base := 0], next) &&
      Flat(ws[base := 0], next) == Flat(ws, base)[WORD..] + Zeros(WORD)
  {
    hide Bit, Slot, Flat;
    var n := |ws|;
    var next := (base + 1) % n;
    ShiftedSlot(n, base, 0);
    var f, g := Flat(ws, base), Flat(ws[base := 0], next);
    forall x | 0 <= x < WORD * n
      ensures g[x] == (f[WORD..] + Zeros(WORD))[x]
    {
      ShiftedBit(ws, base, next, x);
    }
  }

  lemma ShiftedBit(ws: seq<bv64>, base: nat, next: nat, x: nat)
    requires base < |ws| && next == (base + 1) % |ws| && x < WORD * |ws| && next < |ws|
    ensures
      Flat(ws[base := 0], next)[x]
      == if x < WORD * |ws| - WORD then Flat(ws, base)[x + WORD] else false
  {
    hide Bit, Slot, Flat;
    var n := |ws|;
    var j, y := x / WORD, x % WORD;
    ZeroBits(y);
    ShiftedSlot(n, base, j);
    FlatAt(ws[base := 0], next, x);
    if x < WORD * n - WORD {
      SlotsDiffer(n, base, j + 1, 0);
      BaseSlot(n, base);
      assert (x + WORD) / WORD == j + 1 && (x + WORD) % WORD == y;
      FlatAt(ws, base, x + WORD);
    }
  }

  lemma BaseSlot(n: nat, base: nat)
    requires base < n
    ensures Slot(n, base, 0) == base
  {
  }

  /** A range within one word. */
  lemma OneWord(f: seq<bool>, a: nat, b: nat)
    requires a <= b < |f| && a / WORD == b / WORD
    ensures RangeClass(f, a, b) == Classify(f, a, b)
  {
  }

  /** One turn of the loop over whole words, and the last word. */
  lemma NextClass(f: seq<bool>, w: nat, b: nat, res: Intersect)
    requires w < b / WORD && b < |f|
    ensures
      ClassFrom(f, WORD * w, b, res)
      == ClassFrom(f, WORD * (w + 1), b, Combine(res, Classify(f, WORD * w, WORD * w + WORD - 1)))
  {
    hide Classify, Combine;
  }

  lemma LastClass(f: seq<bool>, w: nat, b: nat, res: Intersect)
    requires w == b / WORD && b < |f|
    ensures ClassFrom(f, WORD * w, b, res) == Combine(res, Classify(f, WORD * w, b))
  {
    hide Classify, Combine;
  }

  /** A range that leaves its first word. */
  lemma FirstWord(f: seq<bool>, a: nat, b: nat)
    requires a <= b < |f| && a / WORD < b / WORD
    ensures
      var p := a / WORD;
      && WORD * (p + 1) <= b && WORD * p + WORD - 1 >= a
      && RangeClass(f, a, b) == ClassFrom(f, WORD * (p + 1), b, Classify(f, a, WORD * p + WORD - 1))
  {
  }

  // ---- counting the words shifted out ----

  /** The bits of a run of words, lowest first. */
  function Joined(ws: seq<bv64>): seq<bool> {
    if ws == [] then [] else Joined(ws[..|ws| - 1]) + WordBits(ws[|ws| - 1])
  }

  /** bimCountSet summed over a run of words. */
  function CountAll(ws: seq<bv64>): nat {
    if ws == [] then 0 else CountAll(ws[..|ws| - 1]) + Value(CountSet(ws[|ws| - 1]))
  }

  lemma {:induction false} CountAllIsOnes(ws: seq<bv64>)
    ensures CountAll(ws) == Ones(Joined(ws))
  {
    if ws != [] {
      hide WordBits, CountSet, Value;
      var n := |ws| - 1;
      CountAllIsOnes(ws[..n]);
      CountSetIsOnes(ws[n]);
      OnesAppend(Joined(ws[..n]), WordBits(ws[n]));
    }
  }

  /** The counts of the words shifted out, plus the bits still held, are as many as the
      positions ever set. */
  lemma WordCountsAreConserved(cap: nat, ops: seq<Op>, ws: seq<bv64>)
    requires cap >= WORD && InCapacity(cap, ops) && Joined(ws) == Run(cap, ops).out
    ensures CountAll(ws) + Ones(Run(cap, ops).held) == |EverSet(cap, ops)|
  {
    CountAllIsOnes(ws);
    CountsAreConserved(cap, ops);
  }
}
