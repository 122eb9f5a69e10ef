/** The bits of a 64-bit word, and the bit masks of src/bitmap.c. */
module Words {
  import opened BitmapSpec

  // ---- facts about one shift distance ----

  /** Bit k of v. */
  predicate BitAt(v: bv64, k: bv64)
    requires k < 64
  {
    (v >> k) & 1 == 1
  }

  lemma Increment(k: bv64)
    requires k < 64
    ensures (k + 1) as nat == k as nat + 1
  {
  }

  lemma SmallIndex(k: bv64)
    ensures k as nat < 64 <==> k < 64
  {
  }

  lemma AndAt(v: bv64, w: bv64, k: bv64)
    requires k < 64
    ensures BitAt(v & w, k) == (BitAt(v, k) && BitAt(w, k))
  {
  }

  lemma OrAt(v: bv64, w: bv64, k: bv64)
    requires k < 64
    ensures BitAt(v | w, k) == (BitAt(v, k) || BitAt(w, k))
  {
  }

  lemma XorAt(v: bv64, w: bv64, k: bv64)
    requires k < 64
    ensures BitAt(v ^ w, k) == (BitAt(v, k) != BitAt(w, k))
  {
  }

  /** No bit from k up is set. */
  predicate Clear(v: bv64, k: bv64)
    requires k < 64
  {
    v >> k == 0
  }

  lemma TopBit(v: bv64)
    requires !BitAt(v, 63)
    ensures Clear(v, 63)
  {
  }

  lemma NextBit(v: bv64, k: bv64)
    requires k < 63 && !BitAt(v, k) && Clear(v, k + 1)
    ensures Clear(v, k)
  {
  }

  lemma OnesFrom(a: bv64, k: bv64)
    requires a < 64 && k < 64
    ensures BitAt(0xFFFF_FFFF_FFFF_FFFF << a, k) == (a <= k)
  {
  }

  lemma OnesTo(b: bv64, k: bv64)
    requires b < 64 && k < 64
    ensures BitAt(!(0xFFFF_FFFF_FFFF_FFFE << b), k) == (k <= b)
  {
  }

  lemma OneAt(a: bv64, k: bv64)
    requires a < 64 && k < 64
    ensures BitAt(1 << a, k) == (k == a)
  {
  }

  // ---- bits by position ----

  /** The number x as a shift distance. */
  function Index(x: nat): (k: bv64)
    requires x <= 64
    ensures k <= 64 && k as nat == x && (x < 64 ==> k < 64)
  {
    if x == 0 then 0
    else
      var k := Index(x - 1);
      SmallIndex(k); Increment(k); SmallIndex(k + 1);
      k + 1
  }

  lemma IndexStep(x: nat)
    requires x < 63
    ensures Index(x + 1) == Index(x) + 1 && Index(x) < 63
  {
  }

  lemma LastIndex()
    ensures Index(63) == 63
  {
    var k: bv64 := 63;
    assert k as nat == 63;
    assert Index(63) as nat == 63;
    SameIndex(k, Index(63));
  }

  lemma SameIndex(k: bv64, l: bv64)
    requires k < 64 && l < 64 && k as nat == l as nat
    ensures k == l
  {
  }

  predicate Bit(v: bv64, x: nat)
    requires x < 64
  {
    BitAt(v, Index(x))
  }

  lemma {:induction false} IndexOrder(x: nat, y: nat)
    requires x < y < 64
    ensures Index(x) < Index(y)
  {
    if x < y - 1 {
      IndexOrder(x, y - 1);
    }
  }

  lemma {:induction false} NoBitsAbove(v: bv64, n: nat)
    requires n < 64 && forall x | n <= x < 64 :: !Bit(v, x)
    ensures Clear(v, Index(n))
    decreases 64 - n
  {
    hide BitAt, Clear, Index;
    assert !Bit(v, n);
    if n < 63 {
      NoBitsAbove(v, n + 1);
      IndexStep(n);
      NextBit(v, Index(n));
    } else {
      LastIndex();
      TopBit(v);
    }
  }

  /** A word is determined by its bits. */
  lemma SameBits(v: bv64, w: bv64)
    requires forall x | 0 <= x < 64 :: Bit(v, x) == Bit(w, x)
    ensures v == w
  {
    var u := v ^ w;
    forall x | 0 <= x < 64
      ensures !Bit(u, x)
    {
      assert Bit(v, x) == Bit(w, x);
      hide BitAt;
      XorAt(v, w, Index(x));
    }
    hide Bit;
    NoBitsAbove(u, 0);
  }

  function WordBits(v: bv64): (r: seq<bool>)
    ensures |r| == WORD
  {
    seq(WORD, x requires 0 <= x < 64 => Bit(v, x))
  }

  // ---- the mask tables ----

  /** bimMaskA: ones from position a up. */
  function MaskA(a: nat): bv64
    requires a < 64
  {
    0xFFFF_FFFF_FFFF_FFFF << Index(a)
  }

  /** bimMaskB: ones up to position b. */
  function MaskB(b: nat): bv64
    requires b < 64
  {
    !(0xFFFF_FFFF_FFFF_FFFE << Index(b))
  }

  /** bimBit: a one at position a. */
  function BitMask(a: nat): bv64
    requires a < 64
  {
    1 << Index(a)
  }

  lemma IndexCompare(x: nat, y: nat)
    requires x < 64 && y < 64
    ensures Index(x) <= Index(y) <==> x <= y
    ensures Index(x) == Index(y) <==> x == y
  {
    hide Index;
    if x < y {
      IndexOrder(x, y);
    } else if y < x {
      IndexOrder(y, x);
    }
  }

  /** The mask of positions a..b. */
  function Mask(a: nat, b: nat): bv64
    requires a < 64 && b < 64
  {
    MaskA(a) & MaskB(b)
  }

  lemma MaskABits(a: nat, x: nat)
    requires a < 64 && x < 64
    ensures Bit(MaskA(a), x) <==> a <= x
  {
    hide Index, BitAt;
    IndexCompare(a, x);
    OnesFrom(Index(a), Index(x));
  }

  lemma MaskBBits(b: nat, x: nat)
    requires b < 64 && x < 64
    ensures Bit(MaskB(b), x) <==> x <= b
  {
    hide Index, BitAt;
    IndexCompare(x, b);
    OnesTo(Index(b), Index(x));
  }

  lemma MaskBits(a: nat, b: nat, x: nat)
    requires a < 64 && b < 64 && x < 64
    ensures Bit(Mask(a, b), x) <==> a <= x <= b
  {
    hide Bit, MaskA, MaskB;
    MaskABits(a, x);
    MaskBBits(b, x);
    AndBits(MaskA(a), MaskB(b), x);
  }

  lemma BitMaskBits(a: nat, x: nat)
    requires a < 64 && x < 64
    ensures Bit(BitMask(a), x) <==> x == a
  {
    hide Index, BitAt;
    IndexCompare(a, x);
    OneAt(Index(a), Index(x));
  }

  lemma AndBits(v: bv64, w: bv64, x: nat)
    requires x < 64
    ensures Bit(v & w, x) == (Bit(v, x) && Bit(w, x))
  {
    hide Index, BitAt;
    AndAt(v, w, Index(x));
  }

  lemma OrBits(v: bv64, w: bv64, x: nat)
    requires x < 64
    ensures Bit(v | w, x) == (Bit(v, x) || Bit(w, x))
  {
    hide Index, BitAt;
    OrAt(v, w, Index(x));
  }

  lemma ZeroBits(x: nat)
    requires x < 64
    ensures !Bit(0, x)
  {
    ZeroAt(Index(x));
  }

  lemma ZeroAt(k: bv64)
    requires k < 64
    ensures !BitAt(0, k)
  {
  }

  // ---- bimTestAndSetInner ----

  /** The class computed from the masked word. */
  function ClassOf(v: bv64, a: nat, b: nat): Intersect
    requires a <= b < 64
  {
    var u := Masked(v, a, b);
    if u == 0 then NONE
    else if u == Mask(a, b) then FULL
    else if u == BitMask(a) then START
    else if u == BitMask(b) then END
    else PART
  }

  function Masked(v: bv64, a: nat, b: nat): bv64
    requires a < 64 && b < 64
  {
    v & Mask(a, b)
  }

  /** The bits of v under the mask of positions a..b. */
  lemma MaskedBits(v: bv64, a: nat, b: nat, x: nat)
    requires a <= b < 64 && x < 64
    ensures Bit(Masked(v, a, b), x) <==> Bit(v, x) && a <= x <= b
  {
    hide Bit, Mask;
    MaskBits(a, b, x);
    AndBits(v, Mask(a, b), x);
  }

  /** A word u with the bits of v under the mask is w exactly when v and w agree there,
      w having no bit elsewhere. */
  lemma MaskedEquals(v: bv64, u: bv64, a: nat, b: nat, w: bv64)
    requires a <= b < 64
    requires forall x | 0 <= x < 64 :: Bit(u, x) <==> Bit(v, x) && a <= x <= b
    requires forall x | 0 <= x < 64 :: Bit(w, x) ==> a <= x <= b
    ensures u == w <==> forall x | a <= x <= b :: Bit(v, x) == Bit(w, x)
  {
    hide Bit;
    if forall x | a <= x <= b :: Bit(v, x) == Bit(w, x) {
      forall x | 0 <= x < 64
        ensures Bit(u, x) == Bit(w, x)
      {
        assert Bit(w, x) ==> a <= x <= b;
      }
      SameBits(u, w);
    } else {
      var x :| a <= x <= b && Bit(v, x) != Bit(w, x);
      assert Bit(u, x) == Bit(v, x);
    }
  }

  lemma ClassOfIsClassify(v: bv64, a: nat, b: nat)
    requires a <= b < 64
    ensures ClassOf(v, a, b) == Classify(WordBits(v), a, b)
  {
    hide Bit, Mask, BitMask, Masked, AllClear, AllSet, OnlyAt;
    var m, u := Mask(a, b), Masked(v, a, b);
    forall x | 0 <= x < 64
      ensures !Bit(0, x) && (Bit(m, x) <==> a <= x <= b)
      ensures (Bit(BitMask(a), x) <==> x == a) && (Bit(BitMask(b), x) <==> x == b)
      ensures Bit(u, x) <==> Bit(v, x) && a <= x <= b
    {
      ZeroBits(x);
      MaskBits(a, b, x);
      BitMaskBits(a, x);
      BitMaskBits(b, x);
      MaskedBits(v, a, b, x);
    }
    ClassByBits(v, u, m, a, b);
  }

  lemma ClassByBits(v: bv64, u: bv64, m: bv64, a: nat, b: nat)
    requires a <= b < 64
    requires forall x | 0 <= x < 64 :: !Bit(0, x) && (Bit(m, x) <==> a <= x <= b)
    requires forall x | 0 <= x < 64 :: (Bit(BitMask(a), x) <==> x == a) && (Bit(BitMask(b), x) <==> x == b)
    requires forall x | 0 <= x < 64 :: Bit(u, x) <==> Bit(v, x) && a <= x <= b
    ensures u == 0 <==> AllClear(WordBits(v), a, b)
    ensures u == m <==> AllSet(WordBits(v), a, b)
    ensures u == BitMask(a) <==> OnlyAt(WordBits(v), a, b, a)
    ensures u == BitMask(b) <==> OnlyAt(WordBits(v), a, b, b)
  {
    hide Bit, Mask, BitMask;
    var bs := WordBits(v);
    assert forall x | a <= x <= b :: bs[x] == Bit(v, x);
    MaskedEquals(v, u, a, b, 0);
    MaskedEquals(v, u, a, b, m);
    MaskedEquals(v, u, a, b, BitMask(a));
    MaskedEquals(v, u, a, b, BitMask(b));
  }

  function WithMask(v: bv64, a: nat, b: nat): bv64
    requires a < 64 && b < 64
  {
    v | Mask(a, b)
  }

  lemma WithMaskBits(v: bv64, a: nat, b: nat, x: nat)
    requires a <= b < 64 && x < 64
    ensures Bit(WithMask(v, a, b), x) <==> Bit(v, x) || a <= x <= b
  {
    hide Bit, Mask;
    MaskBits(a, b, x);
    OrBits(v, Mask(a, b), x);
  }

  lemma SetIsOr(v: bv64, a: nat, b: nat)
    requires a <= b < 64
    ensures WordBits(WithMask(v, a, b)) == SetBits(WordBits(v), a, b)
  {
    hide Bit, WithMask;
    forall x | 0 <= x < 64
      ensures Bit(WithMask(v, a, b), x) <==> Bit(v, x) || a <= x <= b
    {
      WithMaskBits(v, a, b, x);
    }
  }

  // ---- bimTestBit ----

  predicate Meets(v: bv64, k: bv64)
    requires k < 64
  {
    v & (1 << k) != 0
  }

  lemma MeetsBit(v: bv64, k: bv64)
    requires k < 64
    ensures Meets(v, k) <==> BitAt(v, k)
  {
  }
}
